# Verified model of the authentication service's core state machines

The service authenticates users and devices for many tenants. Most of it moves data between HTTP
requests and SQL statements; this project models the parts that carry state or algorithms with
guarantees over whole runs, and proves those guarantees for every input, every run and, where
threads or requests interleave, every interleaving. `dafny verify dfyconfig.toml` checks everything.

Each SQL table is a map of rows, each SQL statement (and each Redis pipeline) one atomic step, and
the clock an integer that never runs backwards. Operations that update state are methods of a class,
each proved equal to a step of a value-level specification; the theorems are about that specification.
I/O, random values, generated identifiers, decryption and failing writes are parameters.

| files | what they model |
|---|---|
| `SlidingWindow`, `InMemoryStore`, `RateLimitMiddleware` | the in-memory rate limiter: decisions over runs, the shared entry objects, the limit one client sees |
| `LockedLimiter` | the same limiter taken apart at its store lock and entry locks |
| `RedisLimiter` | the distributed limiter on a sorted set, compared with the in-memory one |
| `UserCodes`, `DeviceCodes`, `DeviceCodeRuns`, `DeviceTokenService` | the device authorization grant (RFC 8628): codes, statements, runs, interleaved polls for the token |
| `VoiceSessions` | revocable voice sessions and their maintenance |
| `DeleteTenant`, `AdminSeed`, `TenantDomains` | the cascading delete, idempotent seeding, and custom domains |
| `RpId`, `Scopes`, `SchemaDump`, `AuthData` | relying party ids, joined scopes, dump cleaning, authenticator data |
| `BackupCodes`, `BackupCodeRaces` | backup codes tried one after the other, and tried at the same time |
| `Options`, `Text` | shared definitions |

Main results:

- **Rate limits.** The in-memory limiter decides as if it remembered every admission for ever
  (`DecisionIsExact`), so no window holds more than the limit (`WindowBound`). That is true exactly for
  windows of at most two minutes (`BoundHoldsIffWindowRetained`), because the sweep keeps no more. At
  the locks, every interleaving is free of deadlock and keeps the limit for each entry object. In a
  window of at most two minutes a key can exceed its limit only when the sweep drops its entry between a
  lookup and its decision (`KeyBoundWithoutStranding`); without that, every interleaving admits exactly
  what an atomic run of the same checks admits (`InterleavingIsAtomic`). For every limit and window that
  admit anything there is a run that exceeds (`KeyLimitHoldsIff`). The Redis limiter is never more
  permissive, whatever the window, for requests of a key at distinct nanoseconds (`RedisIsStricter`).
  Requests in the same nanosecond are one member of its set: with them, its bound and the comparison hold
  exactly for limits of at most one (`RedisBoundIff`, `RedisNeverLooserIff`).
- **Device grant.** A code only moves on, from pending to decided to closed, in every run of calls
  (`CallsKeepStage`). Within closed it can move from consumed back to expired: a call does this exactly
  when it meets a consumed code past its expiry (`CallLowersRankIff`). A decision is final, sweeps and
  deletes pass over authorized codes, accepted polls are a full interval apart, and a typed code finds at
  most one row. An expiry sweep is invisible as long as no swept code is issued again
  (`SweepIsInvisible`), and whatever follows and at whatever age rows are deleted only if it marks
  nothing (`AlwaysInvisibleIff`). A code
  yields its token once in every interleaving of polls exactly when twice the longest poll is below the
  polling interval (`OneTimeUseIffPollsAreShort`).
- **Tables.** Maintenance never changes whether a voice session reads as revoked or is listed. Deleting
  a tenant removes its rows and the rows that cascade from them (`GoneIff`); these are the tenant's rows
  alone, and the counts add up, exactly when nobody else has a cascading key into them. Every prefix of
  the deletes keeps all enforced keys intact; when users are left with a dead project is
  `DeadProjectInOrder`. Seeding twice is seeding once. Without any index, sequential calls keep one
  tenant per domain and one primary per tenant; with interleaved calls, when an index refuses is
  `SecondUpdateRefusedIff` and `InsertRefusedIff`.
- **Algorithms.** The relying party id is a label suffix of its host exactly when the first listed
  domain the host contains, if any, is one it is under; accepted hosts always satisfy this
  (`RpIdIsLabelSuffix`). Joining and splitting permissions decides like the list exactly when the
  permissions and their words cover each other (`JoinedScopeDecidesAlikeIff`). Backup codes are never
  overspent exactly when nothing can be accepted after a failed write of the handler
  (`BackupCodes.NeverOverspendsIff`) and, when attempts overlap, exactly when of any two that can be
  accepted one records before the other reads (`BackupCodeRaces.NeverOverspendsIff`). Cleaning a dump is
  idempotent; authenticator data round-trips exactly up to 65480 bytes of credential id.

Where code and comments differ, the model follows the code:

- `UpdateLastPolled` is documented for an existing row; a missing row also reads as polled too soon.
- The repository's `AuthorizeDeviceCode` does not check expiry; only the service calling it does.
- Pending codes are listed strictly before their expiry second, while `IsPending` still holds in it;
  the same second separates listed voice sessions from good ones.
- A `SetPrimaryDomain` call for a domain the tenant does not have leaves the tenant without a primary.
- Device codes are called one-time use; consuming is not conditional on the status, so overlapping
  polls can both deliver. Marking a code expired is not conditional either, so a consumed code that is
  polled or looked up after its expiry becomes expired.
- `DeleteTenant` reports deleted rows per table; rows that go by ON DELETE CASCADE are in no count.
- `CreateDomain` is documented to check uniqueness; it looks for other tenants only, and leaves a domain
  that the tenant already has to the index.
- `VerifyTOTP` accepts a backup code whose removal failed to be written; `verifyBackupCode` does not.

## Model

| member | source | states |
|---|---|---|
| SlidingWindow.YoungerTwice | middlewares/mennanov_ratelimit.go:42-48 | pruning early and to a wider window never changes a later pruning to a narrower one |
| SlidingWindow.CheckRemembers | middlewares/mennanov_ratelimit.go:80-98 | a check that prunes and maybe records leaves stamps that agree with the unpruned history from then on |
| SlidingWindow.SweepRemembers | middlewares/mennanov_ratelimit.go:39-55 | a sweep leaves stamps that agree with the history on every window of at most two minutes |
| SlidingWindow.RunRemembers | middlewares/mennanov_ratelimit.go:33-99 | over every run of checks and sweeps, what is stored and the full history of admissions agree at all later times |
| SlidingWindow.DecisionIsExact | middlewares/mennanov_ratelimit.go:80-98 | a request is admitted if and only if fewer than the limit of all admissions ever made for its key are younger than the window |
| SlidingWindow.YoungCountByIndex | middlewares/mennanov_ratelimit.go:83-93 | on a sorted history, fewer than n are young if and only if there are fewer than n or the n-th from the end is a full window old |
| SlidingWindow.AdmissionsSorted | middlewares/mennanov_ratelimit.go:96-97 | admissions are recorded in time order |
| SlidingWindow.DecisionByIndex | middlewares/mennanov_ratelimit.go:80-98 | closed form of the decision: the limit-th most recent admission is absent or a full window old |
| SlidingWindow.AdmissionKeepsBound | middlewares/mennanov_ratelimit.go:92-98 | an admission that saw fewer than the limit of young predecessors keeps every window within the limit |
| SlidingWindow.WindowBound | middlewares/mennanov_ratelimit.go:33-99 | in every run, any half-open interval of one window's length holds at most the limit of admissions, for windows up to two minutes |
| SlidingWindow.BurstIsAdmitted | middlewares/mennanov_ratelimit.go:66-98 | a burst of requests up to the limit is admitted and stored in full |
| SlidingWindow.LongWindowExceeds | middlewares/mennanov_ratelimit.go:39-55 | with any window above two minutes, burst, sweep and one request put limit + 1 admissions into one window |
| SlidingWindow.BoundHoldsIffWindowRetained | middlewares/mennanov_ratelimit.go:33-99 | for any positive limit, the bound holds in all runs if and only if the window is at most two minutes |
| InMemoryStore.RateLimitEntry.constructor | middlewares/mennanov_ratelimit.go:70-72 | a new entry remembers nothing |
| InMemoryStore.RateLimitEntry.Prune | middlewares/mennanov_ratelimit.go:83-89 | the in-place pruning loop keeps exactly the young timestamps in order |
| InMemoryStore.Limiter.constructor | middlewares/mennanov_ratelimit.go:25-30 | the store starts empty, with no entry shared between keys |
| InMemoryStore.Limiter.CheckLimit | middlewares/mennanov_ratelimit.go:66-99 | on shared entry objects: the decision and the new contents of all keys are those of the specification, and no entry comes to serve two keys |
| InMemoryStore.Limiter.SweepKey | middlewares/mennanov_ratelimit.go:40-54 | the sweep's work on one entry prunes it, drops it when empty and leaves every other key alone |
| InMemoryStore.Limiter.Cleanup | middlewares/mennanov_ratelimit.go:33-59 | the loop over the map, in any order, with removals during iteration, gives the swept contents for all keys |
| RateLimitMiddleware.StoreEvents | middlewares/mennanov_ratelimit.go:133-146 | one store step for each request, in order |
| RateLimitMiddleware.LimitOfPath | middlewares/mennanov_ratelimit.go:109-219 | ten a minute for exactly the listed paths, fifty for exactly the admin paths, a hundred for all others |
| RateLimitMiddleware.Serve | middlewares/mennanov_ratelimit.go:133-300 | serving a request by any of the three middlewares is the store step its key, limit and window name |
| RateLimitMiddleware.EndpointKeysDiffer | middlewares/mennanov_ratelimit.go:143 | address and endpoint class can be read back from a key |
| RateLimitMiddleware.KeyIdentifies | middlewares/mennanov_ratelimit.go:143-274 | strict and per-user keys never collide with a default key, and default keys only for the same address and class |
| RateLimitMiddleware.LetThroughIsAdmissions | middlewares/mennanov_ratelimit.go:133-182 | the requests of an address and class let through are the admissions of its key |
| RateLimitMiddleware.ClientLimit | middlewares/mennanov_ratelimit.go:109-219 | with atomic checks, whatever mix the shared store serves, no address gets more than its class's limit through in any minute |
| RateLimitMiddleware.ClientLimitAtTheLocks | middlewares/mennanov_ratelimit.go:66-182 | in every interleaving of lookups, decisions and sweeps, an address gets its class's limit plus what dropped entries admit, and the limit alone when no entry in use is dropped |
| LockedLimiter.EntryLocksAfter | middlewares/mennanov_ratelimit.go:77-78 | an entry lock and the place of its holder change together, and only by acquiring and releasing |
| LockedLimiter.StaysDisciplined | middlewares/mennanov_ratelimit.go:37-98 | every step keeps both kinds of lock exclusive, entries tied to their keys and every thread's view of the store right |
| LockedLimiter.RunDisciplined | middlewares/mennanov_ratelimit.go:37-98 | these hold in every reachable state of every interleaving |
| LockedLimiter.UninterruptedCheck | middlewares/mennanov_ratelimit.go:66-99 | the five lock-level steps of an uninterrupted check have the effect and the answer of the atomic check |
| LockedLimiter.UninterruptedSweep | middlewares/mennanov_ratelimit.go:36-57 | the lock-level steps of an uninterrupted sweep, over the keys in any order, have the effect of the atomic sweep |
| LockedLimiter.NoDeadlock | middlewares/mennanov_ratelimit.go:37-98 | whenever a thread is busy, some busy thread can take a step |
| LockedLimiter.SweepIsThorough | middlewares/mennanov_ratelimit.go:36-57 | in every interleaving, when a sweep can end no listed entry holds a stamp that was two minutes old at its beginning |
| LockedLimiter.StaysExact | middlewares/mennanov_ratelimit.go:37-98 | every step keeps each entry's stamps, and the listed stamps of the key, exact about their own histories and within the limit |
| LockedLimiter.RunExact | middlewares/mennanov_ratelimit.go:37-98 | so does every interleaving |
| LockedLimiter.EntryBound | middlewares/mennanov_ratelimit.go:76-98 | in every interleaving each entry object admits at most the limit into any window |
| LockedLimiter.ViewsAddUp | middlewares/mennanov_ratelimit.go:67-98 | a key's admissions are those on the listed entry plus those on entries dropped meanwhile |
| LockedLimiter.KeyBound | middlewares/mennanov_ratelimit.go:37-98 | in every interleaving a key exceeds its limit by at most its admissions on dropped entries |
| LockedLimiter.RunCurrent | middlewares/mennanov_ratelimit.go:50-75 | if no sweep drops an entry someone waits for, everyone who looked a key up still holds the listed entry |
| LockedLimiter.KeyBoundWithoutStranding | middlewares/mennanov_ratelimit.go:37-98 | under that condition the limit holds for the key in every interleaving |
| LockedLimiter.DecisionSeesHistory | middlewares/mennanov_ratelimit.go:76-98 | on the listed entry a decision sees the young part of the key's full history |
| LockedLimiter.InterleavingIsAtomic | middlewares/mennanov_ratelimit.go:37-98 | under that condition every interleaving admits exactly what the atomic limiter admits when the checks run one by one in the order of their decisions |
| LockedLimiter.AfterRefill | middlewares/mennanov_ratelimit.go:50-98 | after a thread is stranded, n further checks up to the limit are all admitted on a new entry |
| LockedLimiter.StrandingExceeds | middlewares/mennanov_ratelimit.go:50-98 | for every key, positive limit and positive window, a run with one stranded thread admits limit + 1 at one instant |
| LockedLimiter.KeyLimitHoldsIff | middlewares/mennanov_ratelimit.go:37-98 | without the schedule condition the key's limit holds in all interleavings if and only if limit or window is not positive |
| RedisLimiter.Put | middlewares/redis_ratelimit.go:36-43 | storing members changes one key only and an empty set is no key |
| RedisLimiter.Redis.constructor | middlewares/redis_ratelimit.go:26-28 | the keyspace starts empty |
| RedisLimiter.Redis.ZRemRangeByScore | middlewares/redis_ratelimit.go:37 | members scored from zero to the maximum go, the rest and all other keys stay |
| RedisLimiter.Redis.ZAdd | middlewares/redis_ratelimit.go:41 | sets one member's score and nothing else |
| RedisLimiter.Redis.Expire | middlewares/redis_ratelimit.go:43 | renews the expiry of an existing key; a time to live that is not positive deletes it |
| RedisLimiter.Redis.Allow | middlewares/redis_ratelimit.go:31-50 | the four commands in a row decide and leave the keyspace as the specification of one pipeline says |
| RedisLimiter.PipelineEffect | middlewares/redis_ratelimit.go:36-43 | the contracts of the four commands determine the whole keyspace after the pipeline |
| RedisLimiter.ExpiryAfterAllow | middlewares/redis_ratelimit.go:41-43 | an idle key is there until one minute after its last request has left the window, and then gone |
| RedisLimiter.AllowKeepsAll | middlewares/redis_ratelimit.go:36-43 | one request keeps the set equal to the requests in the window at every later time, the key's expiry included |
| RedisLimiter.RunKeepsAll | middlewares/redis_ratelimit.go:36-43 | in every run the set holds exactly the requests still in the window, so the expiry never matters |
| RedisLimiter.YoungCount | middlewares/redis_ratelimit.go:39-41 | the members of the set in the window are the distinct instants of requests in it |
| RedisLimiter.RedisIsExact | middlewares/redis_ratelimit.go:31-50 | in every run, ties included, a request is admitted if and only if fewer than the limit of distinct instants of earlier requests, admitted or denied, are in the window |
| RedisLimiter.RedisByIndex | middlewares/redis_ratelimit.go:31-50 | closed form, ties included: the instant limit places back is absent or a full window old |
| RedisLimiter.StampsAmongRequests | middlewares/mennanov_ratelimit.go:33-99 | however much is pruned and swept, the in-memory store remembers no more in a window than was requested |
| RedisLimiter.RedisIsStricter | middlewares/redis_ratelimit.go:31-50 | on the same run with requests at distinct times, whatever Redis admits the in-memory limiter admits, for windows of any length |
| RedisLimiter.RedisBound | middlewares/redis_ratelimit.go:31-50 | in every run, ties included, no window of any length holds more than the limit of instants with an admission |
| RedisLimiter.RedisBoundForDistinct | middlewares/redis_ratelimit.go:31-50 | with requests at distinct times, no window holds more than the limit of admissions |
| RedisLimiter.WholeBurstAdmitted | middlewares/redis_ratelimit.go:41 | under a limit of two or more, any number of requests in one nanosecond are all admitted |
| RedisLimiter.RedisBoundIff | middlewares/redis_ratelimit.go:31-50 | ties included, no window ever holds more than the limit of admissions if and only if the limit is at most one or the window not positive |
| RedisLimiter.BurstIsLooser | middlewares/redis_ratelimit.go:41 | for every other limit and window, the request after a full burst in one nanosecond gets through Redis and not in memory |
| RedisLimiter.RedisNeverLooserIff | middlewares/redis_ratelimit.go:31-50 | ties included, Redis never admits what the in-memory limiter denies if and only if the limit is at most one or the window not positive |
| UserCodes.GenerateUserCode | database/device_auth_repository.go:432-448 | the two array loops give a well-shaped code whose letters, hyphen removed, spell the random bytes |
| UserCodes.CharsetSpelled | database/device_auth_repository.go:431-433 | codes use exactly the capital letters without I, L and O and the digits without 0 and 1 |
| UserCodes.StrippedHalves | database/device_auth_repository.go:94 | stripping a generated code removes its one hyphen and nothing else |
| UserCodes.StripIsInjective | database/device_auth_repository.go:94 | putting the hyphen back undoes the stripping; distinct generated codes stay distinct without hyphens |
| UserCodes.OtherShapesCollide | database/device_auth_repository.go:94 | codes with one hyphen anywhere would collide if and only if they differ only in where it stands |
| DeviceCodes.EffectKeepsCodes | database/device_auth_repository.go:178-296 | no statement rewrites the codes, the expiry or the creation columns of a row |
| DeviceCodes.StepValid | models/device_auth.go:20-23 | every statement keeps both codes unique |
| DeviceCodes.DeviceAuthRepository.constructor | database/device_auth_repository.go:22-24 | starts without rows |
| DeviceCodes.DeviceAuthRepository.CreateDeviceCode | database/device_auth_repository.go:28-68 | refuses exactly a repeated device code or user code; otherwise adds the given columns, scopes and addresses included, with all grant columns empty |
| DeviceCodes.DeviceAuthRepository.FindByUserCode | database/device_auth_repository.go:86-97 | finds a row if and only if some user code matches without hyphens |
| DeviceCodes.DeviceAuthRepository.SetStatus | database/device_auth_repository.go:178-186 | sets the status unconditionally and touches no other row |
| DeviceCodes.DeviceAuthRepository.UpdateLastPolled | database/device_auth_repository.go:191-213 | too soon if and only if the row is missing or was polled less than an interval ago; otherwise the poll time, and nothing else, is written |
| DeviceCodes.DeviceAuthRepository.AuthorizeDeviceCode | database/device_auth_repository.go:218-261 | succeeds if and only if a pending row matches; records each granted column, the decision and its time, and keeps the expiry |
| DeviceCodes.DeviceAuthRepository.MarkAsConsumed | database/device_auth_repository.go:264-266 | is the status update to consumed |
| DeviceCodes.DeviceAuthRepository.ExpireOldDeviceCodes | database/device_auth_repository.go:269-281 | exactly the pending rows past their expiry become expired; returns how many rows changed |
| DeviceCodes.DeviceAuthRepository.DeleteExpiredDeviceCodes | database/device_auth_repository.go:284-296 | a row is left, unchanged, if and only if it is pending, authorized or not old enough; returns how many are missing |
| DeviceCodes.DeviceAuthRepository.ListPendingDeviceCodes | database/device_auth_repository.go:300-415 | lists exactly the rows of the tenant, and of the client if one is given, that are pending and expire later, each once and newest first, and expires the tenant's stale rows and no others |
| DeviceCodes.SelectListed | database/device_auth_repository.go:313-341 | the selection is complete, without repetition and sorted |
| DeviceCodes.ListingsPartition | database/device_auth_repository.go:313-336 | a client's listing is its part of the tenant's, and no code is listed for two tenants |
| DeviceCodes.Insert | database/device_auth_repository.go:334 | inserting into the listing keeps it sorted and its members |
| DeviceCodes.OwnSweepKeepsListing | database/device_auth_repository.go:303-336 | the sweep at the start of a listing does not change that listing |
| DeviceCodeRuns.RankNeverFalls | database/device_auth_repository.go:178-296 | in every run whose status updates come only through MarkAsConsumed, the rank never falls between any two times: a used code stays used and no code returns to pending |
| DeviceCodeRuns.StageNeverFalls | database/device_auth_repository.go:178-296 | in every run whose status updates mark codes consumed or expired, a code only moves on from pending to decided to closed |
| DeviceCodeRuns.SettledForGood | database/device_auth_repository.go:218-296 | once a row has left pending it never returns, and user, tenant, client and token stay as they are |
| DeviceCodeRuns.DecidedAtMostOnce | database/device_auth_repository.go:233-259 | a code is approved or denied at most once in any run |
| DeviceCodeRuns.DeletedOnlyWhenSpent | database/device_auth_repository.go:284-296 | a row is deleted if and only if the delete runs and the row is expired, consumed or denied and old enough |
| DeviceCodeRuns.AuthorizedIsKept | database/device_auth_repository.go:264-308 | an authorized row keeps status, grant and token through every run that does not set its status |
| DeviceCodeRuns.PollsAreRemembered | database/device_auth_repository.go:191-213 | a present row holds the time of the last accepted poll of the run |
| DeviceCodeRuns.PollsAreSpaced | database/device_auth_repository.go:191-213 | in every run accepted polls of one code are at least the minimum interval apart (section 3.5 of RFC 8628) |
| DeviceCodeRuns.PollSpan | database/device_auth_repository.go:191-213 | n accepted polls span at least n - 1 intervals |
| DeviceCodeRuns.SpellingFindsOneRow | database/device_auth_repository.go:86-97 | in every run with generated codes, any typed spelling matches at most one row (section 6.1 of RFC 8628) |
| DeviceCodeRuns.StepKeepsAgreement | database/device_auth_repository.go:178-308 | two tables that agree on unexpired rows still do after any statement that both refuse or both accept |
| DeviceCodeRuns.RunKeepsAgreement | database/device_auth_repository.go:178-308 | and after any run |
| DeviceCodeRuns.AvoidingRunsConflictAlike | database/device_auth_repository.go:28-68 | a run that issues no code of a swept row meets the same conflicts with and without the sweep |
| DeviceCodeRuns.SweepIsInvisible | database/device_auth_repository.go:269-336 | an expiry sweep inserted anywhere changes no later pending answer and no later listing, whatever runs after it that issues no code of a swept row |
| DeviceCodeRuns.ReissueShowsSweep | database/device_auth_repository.go:269-296 | for every row a sweep marks and every age at which rows are deleted, deleting it in time and issuing its user code again makes the sweep visible then |
| DeviceCodeRuns.AlwaysInvisibleIff | database/device_auth_repository.go:269-336 | for every age at which rows are deleted, a sweep is invisible whatever follows and whenever one asks if and only if it marks no row |
| DeviceCodeRuns.ListedArePending | models/device_auth.go:58-65 | a code is listed if and only if it is the tenant's and the client's, is pending and not in its expiry second |
| DeviceTokenService.PollForToken | services/device_auth_service.go:203-301 | each of the eight answers as an if-and-only-if on the columns of the row read, the token's row, and the row left behind; other rows untouched |
| DeviceTokenService.FreshCodeAnswersPending | services/device_auth_service.go:233-238 | after any run that does not decide on an issued code, a poll in time answers that the decision is pending |
| DeviceTokenService.DecidedCodeAnswers | services/device_auth_service.go:240-281 | after a decision and any run, a poll in time tells of the denial or delivers the token with exactly the granted user, tenant, client and token |
| DeviceTokenService.DeliveredCodeAnswersUsed | services/device_auth_service.go:262-288 | after a delivery and any run, a poll in time answers that the code has been used |
| DeviceTokenService.ValidateUserCode | services/device_auth_service.go:184-199 | the verdict by the columns of the row found, and that exactly an expired row is marked, whatever its status |
| DeviceTokenService.AuthorizeDevice | services/device_auth_service.go:121-169 | decides only on a found, unexpired, pending code, and otherwise leaves what the lookup leaves |
| DeviceTokenService.CallLowersRankIff | services/device_auth_service.go:134-217 | a poll, lookup or decision lowers its code's rank if and only if the code is consumed and past its expiry |
| DeviceTokenService.CallsKeepStage | services/device_auth_service.go:121-301 | over every run of whole calls and other statements a code only moves on from pending to decided to closed |
| DeviceTokenService.RunInv | services/device_auth_service.go:203-281 | in every interleaving held tokens were stamped a full interval apart, and a delivery leaves a spent row that remembers its stamp |
| DeviceTokenService.FirstToDeliver | services/device_auth_service.go:218-262 | short polls cannot reach a second delivery |
| DeviceTokenService.DeliveredOnce | services/device_auth_service.go:203-281 | when twice the longest poll is below the interval, a code delivers at most once in every interleaving |
| DeviceTokenService.SlowPollsDeliverTwice | services/device_auth_service.go:203-281 | for every longer poll duration, after a code is issued and approved, two overlapping polls both deliver |
| DeviceTokenService.OneTimeUseIffPollsAreShort | services/device_auth_service.go:203-281 | one-time use, from every reachable table and in all interleavings, if and only if twice the longest poll is below the interval |
| VoiceSessions.VoiceAuthRepository.constructor | database/voice_auth_repository.go:23-25 | starts without rows |
| VoiceSessions.VoiceAuthRepository.CreateVoiceActiveSession | database/voice_auth_repository.go:489-537 | refuses exactly a repeated session id; otherwise adds the given columns, unrevoked, with missing times filled in |
| VoiceSessions.CreatedIsGood | database/voice_auth_repository.go:489-537 | a created session is good exactly until its expiry, if created active |
| VoiceSessions.VoiceAuthRepository.RevokeVoiceActiveSession | database/voice_auth_repository.go:648-671 | succeeds if and only if the session is active; in either case it reads as revoked afterwards |
| VoiceSessions.VoiceAuthRepository.RevokeAllVoiceActiveSessions | database/voice_auth_repository.go:674-688 | exactly the active sessions of that tenant and user other than the excepted one become revoked, with reason and time; every other row is unchanged; the count is the number of changed rows |
| VoiceSessions.OthersKeepSessions | database/voice_auth_repository.go:674-688 | no answer about another tenant's or user's session, or the excepted one, changes at any later time |
| VoiceSessions.VoiceAuthRepository.UpdateVoiceActiveSessionActivity | database/voice_auth_repository.go:691-701 | touches the activity time of an active session only |
| VoiceSessions.VoiceAuthRepository.IsSessionRevoked | database/voice_auth_repository.go:704-721 | revoked if and only if missing, inactive or past its expiry |
| VoiceSessions.VoiceAuthRepository.CountActiveSessionsForUser | database/voice_auth_repository.go:724-734 | counts the user's listed sessions |
| VoiceSessions.VoiceAuthRepository.CleanupExpiredVoiceActiveSessions | database/voice_auth_repository.go:737-751 | exactly the active sessions past their expiry become revoked as expired; returns their number |
| VoiceSessions.VoiceAuthRepository.DeleteOldVoiceActiveSessions | database/voice_auth_repository.go:754-767 | a session is left, unchanged, if and only if it is active, has no revocation time, or was revoked too recently; returns how many are missing |
| VoiceSessions.ListedIffNotRevoked | database/voice_auth_repository.go:616-627 | a session is not revoked if and only if it is listed as active, or is active and in its expiry second |
| VoiceSessions.CleanupForestallsRevoke | database/voice_auth_repository.go:648-751 | after a cleanup a session can be revoked by name if and only if it could before and was not overdue |
| VoiceSessions.RevokedForGood | database/voice_auth_repository.go:648-767 | once revoked or expired, a session is revoked at all later times of every run that does not reissue its id |
| VoiceSessions.AnswersInOrder | database/voice_auth_repository.go:616-734 | each read answers from the table left by everything before it; statements that change rows answer nothing |
| VoiceSessions.WithoutMaintenanceInOrder | database/voice_auth_repository.go:737-767 | leaving maintenance out drops exactly the cleanups and deletions and keeps the order of the rest |
| VoiceSessions.StepsAgree | database/voice_auth_repository.go:489-767 | tables no later read can tell apart stay so under every statement |
| VoiceSessions.MaintenanceAgrees | database/voice_auth_repository.go:737-767 | cleanup or deletion on one side only keeps them so |
| VoiceSessions.SameAnswers | database/voice_auth_repository.go:616-721 | such tables answer every read alike |
| VoiceSessions.AgreeingRunsAnswerAlike | database/voice_auth_repository.go:704-767 | whole runs on such tables answer alike with and without maintenance |
| VoiceSessions.MaintenanceIsInvisible | database/voice_auth_repository.go:704-767 | leaving out all cleanups and deletions of a run changes no answer of IsSessionRevoked and no list of active sessions in it |
| DeleteTenant.LeavesAreNoParents | migrations/master/054_scoped_rbac_schema.sql:78-84 | among the sixteen tables cascades are one step deep |
| DeleteTenant.StruckIsClosed | migrations/master/091_role_bindings_username_role_scope_defaults.sql:10-19 | after a cascade nothing that is left has a cascading key into what went |
| DeleteTenant.ExecDelete | database/tenant_repository.go:409-418 | one DELETE leaves exactly the rows that are neither selected nor children of selected rows, unchanged; all rows are left, counted, or taken along uncounted |
| DeleteTenant.RefusedIff | migrations/tenant/000_tenant_template.sql:8983-8984 | a statement is refused if and only if it deletes a user whom a group membership still names |
| DeleteTenant.RunStatements | database/tenant_repository.go:420-500 | the loop of statements fails exactly when one fails or is refused; otherwise each count is its statement's |
| DeleteTenant.TenantRepository.constructor | database/tenant_repository.go:18-20 | the repository holds the given rows |
| DeleteTenant.TenantRepository.DeleteInOrder | database/tenant_repository.go:399-508 | a failure at any statement or at commit restores the starting state |
| DeleteTenant.TenantRepository.Delete | database/tenant_repository.go:399-508 | no key of an intact database ever refuses; on success a row is gone if and only if its own tenant column, or that of a role, user, permission or tenant record its columns name, is the tenant's; all others are unchanged; each count is the number of rows of its table that carry the tenant, and rows left, counts and rows taken along add up |
| DeleteTenant.OrderIsCascade | database/tenant_repository.go:420-500 | the program's order names all 16 tables once, before every table they cascade from or are selected through |
| DeleteTenant.SelectionIsStable | database/tenant_repository.go:420-500 | when a DELETE runs, its subqueries select what they would have at the start |
| DeleteTenant.DoomedAreOwned | database/tenant_repository.go:420-500 | each DELETE selects all of the tenant's rows of its table and no others |
| DeleteTenant.DeleteAllIs | database/tenant_repository.go:420-500 | after any child-first sequence, exactly the tenant's rows of those tables and their children are gone and nothing else has changed |
| DeleteTenant.CountIsOwned | database/tenant_repository.go:409-418 | each statement counts its table's share of the tenant's rows as they were at the start |
| DeleteTenant.GoneIff | database/tenant_repository.go:420-500 | a row is gone at the end if and only if it is the tenant's or has a cascading key into the tenant's rows; what is left is unchanged |
| DeleteTenant.OwnedByColumns | database/tenant_repository.go:420-500 | the WHERE clauses, table by table, in terms of the columns |
| DeleteTenant.GoneByColumns | database/tenant_repository.go:420-500 | what is gone and what is unchanged after the program's sixteen statements, in terms of the columns alone |
| DeleteTenant.NothingLeft | database/tenant_repository.go:420-500 | no row is left with the tenant in its tenant column, no tenant record under either id, no session, token or membership of its users, no permission of its roles |
| DeleteTenant.OnlyOwnedGoneIff | database/tenant_repository.go:420-500 | exactly the tenant's rows go if and only if nobody else has a cascading key into them |
| DeleteTenant.CountsConserve | database/tenant_repository.go:400-418 | every row is left, counted, or a row of others taken along |
| DeleteTenant.CountsAreRemovedIff | database/tenant_repository.go:400-418 | the counts add up to the rows removed if and only if nobody else has a cascading key into the tenant's rows |
| DeleteTenant.InboundIff | migrations/master/054_scoped_rbac_schema.sql:78-128 | under the composite keys, what can be taken along is a tenant's permission held by someone else's role, or hangs on a tenant record with the id in its second id column only |
| DeleteTenant.SecondDeleteFindsNothing | database/tenant_repository.go:399-508 | after a deletion the tenant owns no row |
| DeleteTenant.PrefixIntact | database/tenant_repository.go:420-500 | every prefix of the deletes keeps every enforced key intact, whoever refers to whom |
| DeleteTenant.NeverRefused | migrations/tenant/000_tenant_template.sql:8983-8984 | memberships go before the users that their key guards, so no statement is refused |
| DeleteTenant.DeadProjectIff | migrations/master/048_drop_fk_users_project_id.sql:1-17 | for any child-first order, a user is left with a dead project if and only if the project has gone and the user has not |
| DeleteTenant.DeadProjectInOrder | database/tenant_repository.go:481-498 | in the program's order: the tenant's own users from statement 13 until 15, other users of its projects from 13 on, and users of a project taken along at the end |
| AdminSeed.UpsertPermission | database/admin_seed_repository.go:91-96 | the row with the same tenant, resource and action is rewritten in place; only if there is none is the new id used |
| AdminSeed.UpsertAdminRole | database/admin_seed_repository.go:47-52 | the tenant's admin role keeps its id; names stay unique |
| AdminSeed.UpsertKeepsUnique | database/admin_seed_repository.go:91-96 | an upsert keeps tenant, resource and action unique |
| AdminSeed.UpsertGrants | database/admin_seed_repository.go:89-108 | an upsert with its link grants its pair and keeps pairs granted before |
| AdminSeed.UpsertExtends | database/admin_seed_repository.go:89-108 | an upsert with its link keeps ids and links and adds only listed rows of the tenant |
| AdminSeed.UpsertAgain | database/admin_seed_repository.go:89-108 | repeating a granted pair changes nothing |
| AdminSeed.SeedOne | database/admin_seed_repository.go:89-108 | one round of the loop keeps its invariant, duplicates in the list included |
| AdminSeed.SeedPermissions | database/admin_seed_repository.go:89-108 | afterwards every listed pair is granted; ids, links and other rows are kept; a granted list is left unchanged |
| AdminSeed.AdminRepository.constructor | database/admin_seed_repository.go:21-23 | all tables start empty |
| AdminSeed.AdminRepository.EnsureAdminRoleAndPermissions | database/admin_seed_repository.go:35-111 | the tenant is seeded, only listed rows are added, and a seeded tenant changes in nothing but the role's time |
| AdminSeed.AdminRepository.EnsureAdminRoleBinding | database/admin_user_repository.go:265-289 | a tenant-wide binding exists afterwards and an existing one prevents the insert |
| AdminSeed.FindAdminUser | database/admin_user_repository.go:213-252 | finds a user with the tenant's address if there is one, else an oldest active user, and nobody only if there is neither |
| AdminSeed.AdminRepository.EnsureTenantAdminRoleAssignment | database/admin_user_repository.go:205-262 | seeds, and adds one tenant-wide binding exactly when the user found is not bound yet |
| AdminSeed.AdminRepository.RunAgain | database/admin_user_repository.go:205-289 | any number of further runs, each with the users of its day, changes nothing but the time on the role and bindings of users some lookup may return, at most one each and none when all are bound already |
| AdminSeed.SeededOnce | database/admin_seed_repository.go:35-111 | seeded means one admin role and, for each listed pair, exactly one row, linked to it and described by resource and action |
| AdminSeed.AdminPermissionsAre | database/admin_seed_repository.go:57-87 | the list grants five actions on 22 resources, and exactly the few pairs beyond them |
| AdminSeed.OtherTenantsUntouched | database/admin_seed_repository.go:89-108 | other tenants' permission rows are the same before and after |
| TenantDomains.NormalIsLower | database/tenant_domains_repository.go:57-60 | a normal form is lower case and starts with no space |
| TenantDomains.NormalizeIdempotentIff | database/tenant_domains_repository.go:57-60 | normalizing twice is normalizing once if and only if the trimmed name does not end in two dots or in space and dot |
| TenantDomains.NormalizePadded | database/tenant_domains_repository.go:57-60 | surrounding white space, letter case and one final dot make no difference |
| TenantDomains.SequentialRunsKeep | database/tenant_domains_repository.go:63-399 | with no index at all, every sequential run of calls, half-finished SetPrimaryDomain calls included, keeps one tenant per domain and one primary per tenant |
| TenantDomains.PrimaryIff | database/tenant_domains_repository.go:294-328 | after a clearing of the tenant, a row is primary if and only if it has been marked since and not cleared again |
| TenantDomains.SecondUpdateRefusedIff | migrations/master/092_create_tenant_domains_table.sql:33-36 | in every interleaving the second update of a call is refused if and only if the domain is the tenant's and another domain of the tenant has been marked since the first update and not cleared |
| TenantDomains.InsertRefusedIff | migrations/master/092_create_tenant_domains_table.sql:29-31 | in every interleaving an insert whose check found the name free is refused if and only if the name has been inserted since and not deleted |
| TenantDomains.TenantDomainsRepository.constructor | database/tenant_domains_repository.go:43-45 | starts without rows |
| TenantDomains.TenantDomainsRepository.CreateDomain | database/tenant_domains_repository.go:63-141 | which of five outcomes applies, and that only the successful one adds a row, unverified and not primary, with its token and author |
| TenantDomains.TenantDomainsRepository.GetDomainByHostname | database/tenant_domains_repository.go:172-200 | finds a domain if and only if a verified row has the host's normal form |
| TenantDomains.TenantDomainsRepository.VerifyDomain | database/tenant_domains_repository.go:269-291 | afterwards exactly the hosts with the domain's normal form resolve to it; time and author are recorded, other rows untouched |
| TenantDomains.TenantDomainsRepository.SetPrimaryDomain | database/tenant_domains_repository.go:294-328 | afterwards a row of the tenant is primary if and only if the call succeeded on it; the rows marked or cleared record time and author; other tenants' rows, other rows of the tenant and all other columns are unchanged |
| TenantDomains.TenantDomainsRepository.DeleteDomain | database/tenant_domains_repository.go:331-347 | afterwards no host resolves to it; one row fewer, other rows untouched |
| TenantDomains.TenantDomainsRepository.UpdateVerificationStatus | database/tenant_domains_repository.go:377-399 | afterwards hosts resolve to it if and only if the check succeeded; reason and time are recorded, the time of verification kept |
| TenantDomains.TenantDomainsRepository.IsDomainOwnedByTenant | database/tenant_domains_repository.go:402-415 | owned if and only if the host resolves to a row of the tenant |
| TenantDomains.OwnedIffResolved | database/tenant_domains_repository.go:172-200 | where a name has one tenant, a tenant owns a host if and only if the host resolves, and only to that tenant |
| TenantDomains.OwnedIffResolvedInRuns | database/tenant_domains_repository.go:402-415 | so it is in every sequential run of calls, by the program's own checks |
| TenantDomains.RegisteredIsResolved | database/tenant_domains_repository.go:63-200 | a registered and verified domain is found under exactly the spellings with the same normal form |
| RpId.ValidateSubdomainHost | config/webauthn_config.go:36-66 | the loop with early returns accepts exactly the platform domains and their one-label subdomains |
| RpId.BasesSpelled | config/webauthn_config.go:36-43 | the six platform domains, and which four of them SetupWebAuthn looks for |
| RpId.AcceptedSpelled | config/webauthn_config.go:44-64 | below a platform domain exactly one label of 1 to 63 letters, digits and hyphens is accepted |
| RpId.OnlyBase | config/webauthn_config.go:36-66 | a host under one platform domain is under no other |
| RpId.ContainsOnlyBase | config/webauthn_config.go:107-137 | an accepted host contains a platform domain as text if and only if that is its own base |
| RpId.LowerHost | config/webauthn_config.go:107-137 | lower-casing keeps an accepted host accepted under the same base |
| RpId.FirstContainedIs | config/webauthn_config.go:107-137 | the branch chain picks the host's base if listed, else the host |
| RpId.FirstUnderIs | handlers/sms_handler.go:60-72 | the scan picks the host's base if listed, else the host |
| RpId.ScanBases | handlers/sms_handler.go:60-72 | the loop returns the host or a base it is under, as the specification does |
| RpId.CutAtLastColon | handlers/sms_handler.go:46-52 | the host is cut at its last colon exactly when something is before the colon and no bracket after it |
| RpId.PortIsIgnored | handlers/sms_handler.go:44-53 | a port changes neither choice, though one cuts at the first colon and the other at the last |
| RpId.SetupChoice | config/webauthn_config.go:107-137 | the id is the base for the four listed domains and the whole lower-cased host otherwise |
| RpId.ExtractChoice | handlers/sms_handler.go:32-73 | the id is always the base |
| RpId.RpIdIsLabelSuffix | config/webauthn_config.go:107-137 | for every host, SetupWebAuthn's id is the host or a suffix at a label boundary (section 5.1.3 of Web Authentication Level 2) if and only if the first listed domain the host contains, if any, is one it is under; accepted hosts satisfy this, and extractRPIDFromOrigin's id always is such a suffix |
| RpId.ChoicesAgreeIff | config/webauthn_config.go:107-137 | on accepted hosts the choices agree if and only if the base is one of the four listed or the host is the base itself |
| RpId.ChoicesAgreeForAll | handlers/sms_handler.go:32-73 | on every host the choices agree if and only if the first listed domain it contains is one it is under, or it contains none and is below no platform domain |
| RpId.ContainedElsewhere | config/webauthn_config.go:107-137 | an instance where the condition fails: a custom domain that starts with a platform domain |
| Scopes.MapPermissions | middlewares/spiffe_auth.go:99-107 | the loop puts the text permissions, joined by spaces, into the scope claim and changes nothing else |
| Scopes.TextsAre | middlewares/spiffe_auth.go:100-105 | the loop keeps exactly the text entries, and a list of texts as it is |
| Scopes.JoinConcat | middlewares/spiffe_auth.go:106 | joining puts exactly one space between parts |
| Scopes.FieldsOfTwo | middlewares/auth.go:1054-1055 | splitting two texts joined by a space gives the words of both |
| Scopes.FieldsOfJoin | middlewares/spiffe_auth.go:99-107 | splitting the joined permissions gives their words in order |
| Scopes.GrantsSpelled | middlewares/auth.go:1096-1118 | an entry grants a need if and only if resource and action each agree or are starred on either side; text without a colon grants nothing |
| Scopes.MatchByMembers | middlewares/auth.go:1103-1117 | a match depends only on which entries are present |
| Scopes.HasScopeIff | middlewares/auth.go:1052-1118 | for every token: it has resource:action if and only if a word of its scope, a non-empty text of a list claim or an entry of a string claim has both parts equal or starred |
| Scopes.NothingGranted | middlewares/auth.go:1052-1118 | a need without a colon is never granted, and a token with neither claim has no scope |
| Scopes.CarryingMoreKeepsScopes | middlewares/auth.go:1052-1118 | a token that carries more entries, in whichever claim, keeps every scope |
| Scopes.JoinedScopeByWords | middlewares/auth.go:1052-1118 | a mapped token has a scope if and only if some word of some permission grants it |
| Scopes.GrantsMoreIff | middlewares/auth.go:1096-1118 | one list grants everything another grants if and only if each granting entry of the other is covered, part by part, by an equal or starred entry |
| Scopes.JoinedScopeDecidesAlikeIff | middlewares/spiffe_auth.go:99-107 | for every list of permissions, joining and checking decides every need like the list if and only if permissions and their words cover each other |
| Scopes.JoinedScopeDecidesAlike | middlewares/auth.go:1052-1118 | for permissions without white space, joining and checking decides like matching the list |
| Scopes.MorePermissionsKeepScopes | middlewares/spiffe_auth.go:99-107 | permissions added anywhere take no scope away |
| Scopes.SpaceInsideGrantsMore | middlewares/auth.go:1052-1118 | an instance where the condition fails: a permission with a space inside grants its words where the list grants nothing |
| BackupCodes.FirstMatch | handlers/totp_handler.go:752-765 | the first stored code that matches, with none before it |
| BackupCodes.NormalForm | handlers/totp_handler.go:758-760 | hyphens and letter case make no difference to a normal form, and nothing else is dropped |
| BackupCodes.CopyWithout | handlers/totp_handler.go:764-769 | the copying loop gives the list without one element, as the slicing does |
| BackupCodes.MfaMethod.constructor | handlers/totp_handler.go:742-749 | holds the issued codes |
| BackupCodes.MfaMethod.VerifyBackupCode | handlers/totp_handler.go:742-777 | accepts if and only if the write succeeds and some stored code has the typed normal form, and then removes exactly one such code; otherwise keeps the list |
| BackupCodes.MfaMethod.VerifyTotpBackupCode | handlers/totp_handler.go:492-524 | accepts if and only if some stored code decrypts to exactly the typed text, and removes exactly one such code if the write succeeds; a failed write accepts and keeps the list |
| BackupCodes.CountRemoved | handlers/totp_handler.go:764-771 | removing a code lowers the count of its normal form by one and of no other |
| BackupCodes.Conservation | handlers/totp_handler.go:492-777 | in every run of both handlers: accepted + remaining = issued + accepted with a failed write, for every normal form |
| BackupCodes.AcceptedAtMostIssued | handlers/totp_handler.go:492-777 | if nothing can be accepted after a failed write of the handler, acceptances never exceed the codes issued |
| BackupCodes.AcceptedAtMostOnce | handlers/totp_handler.go:492-777 | then codes issued with distinct normal forms are each accepted at most once in any spelling |
| BackupCodes.LossAcceptsTwice | handlers/totp_handler.go:504-507 | for every failed write of the handler and every later attempt that can be accepted, one issued code is accepted at both |
| BackupCodes.NeverOverspendsIff | handlers/totp_handler.go:492-777 | over all codes, texts and decryptions, no code is accepted more often than issued if and only if nothing can be accepted after a failed write of the handler |
| BackupCodes.OrderIsKept | handlers/totp_handler.go:492-777 | after any run the remaining codes are an in-order selection of the issued ones |
| BackupCodeRaces.WrittenIff | handlers/totp_handler.go:474-507 | an attempt has written if and only if its read and then its write have happened |
| BackupCodeRaces.SeparateRun | handlers/totp_handler.go:474-507 | if of any two attempts that can be accepted one records before the other reads, accepted and remaining codes balance the issued ones at every point of the schedule |
| BackupCodeRaces.BothAccepted | handlers/totp_handler.go:474-507 | two attempts of which neither records before the other reads both accept one issued code |
| BackupCodeRaces.NeverOverspendsIff | handlers/totp_handler.go:474-507 | for every schedule of reads and writes, no code is accepted more often than issued, whatever is issued and typed, if and only if of any two attempts that can be accepted one records before the other reads |
| SchemaDump.SplitOfJoin | config/schema_sync.go:48-64 | splitting undoes joining for any non-empty list of lines |
| SchemaDump.JoinOfSplit | config/schema_sync.go:48-64 | joining undoes splitting for any text |
| SchemaDump.SanitizeDump | config/schema_sync.go:48-64 | the loop gives the joined kept lines |
| SchemaDump.DropsIff | config/schema_sync.go:66-92 | the lines to drop, by their prefixes and an OWNER TO clause anywhere in six kinds of statement |
| SchemaDump.KeepsTrimmed | config/schema_sync.go:51-62 | white space around a line makes no difference, and blank lines are kept |
| SchemaDump.OutputLines | config/schema_sync.go:48-64 | the output's lines are the kept lines, or one empty line when all were dropped |
| SchemaDump.SanitizeIsIdempotent | config/schema_sync.go:48-92 | cleaning twice is cleaning once, for every input |
| SchemaDump.KeptInOrder | config/schema_sync.go:48-92 | the kept lines are an in-order selection of the input, and a line is in it if and only if it is not droppable |
| SchemaDump.UnchangedIff | config/schema_sync.go:48-92 | the dump is unchanged if and only if it has no droppable line |
| AuthData.Encode | handlers/webauthn_handler.go:85-99 | the layout of attested credential data, of the expected length (sections 6.1 and 6.5.1 of Web Authentication Level 2) |
| AuthData.IdEndWraps | handlers/webauthn_handler.go:91-93 | the sixteen-bit end of the id is right up to 65480 bytes and before its start beyond |
| AuthData.RoundTripIff | handlers/webauthn_handler.go:85-99 | parsing gives back what was encoded if and only if the id has at most 65480 bytes, and stops otherwise |
| AuthData.ParsedIsEncoded | handlers/webauthn_handler.go:85-99 | whatever parses is laid out that way: encoding it again gives the same bytes |

## Left out

- HTTP handlers, request binding, logging, audit, metrics, configuration and server start-up: plumbing without state of its own.
- Vault, Twilio, gRPC, JWKS and database connections; JWT signatures, bcrypt, encryption and the WebAuthn ceremonies: code outside the repository.
- URL, JSON, CBOR and base64 decoding: the models start from the parsed host, list or bytes.
- Agent actions, CIBA, OIDC, TOTP secrets and end-user repositories: mostly unguarded single-row statements that would only add easy members.
- KeyBoundWithoutStranding: one way only for a single run, because a stranded check may also be denied or fall into another window; `KeyLimitHoldsIff` gives both directions over all runs.
- RedisIsExact: scores are exact integers and pipelines atomic; float64 rounding of scores, clock skew between replicas, a time to live cut to whole seconds and the middleware's pass-through on a Redis error are not modelled.
- ClientLimitAtTheLocks: client addresses hold no slash and do not begin with the letter u, as printed IP addresses, and strict-route paths start with a slash; response headers are not modelled.
- OneTimeUseIffPollsAreShort: statements succeed; a failed status write, which the service ignores, is not modelled, nor is the approval path through TOTP.
- RankNeverFalls: holds only for runs without the service's updates to expired; `CallsKeepStage` and `CallLowersRankIff` say what the whole service keeps. A device code is issued at most once in a run (32 random bytes).
- MaintenanceIsInvisible: session ids are never reused; the list of active sessions is the set of their ids, not its order by login time; the answers of the revoking statements do change with a cleanup.
- Delete: keys among the 16 tables only, as the migrations leave them; cascades into other tables are not modelled. The key from a binding's creator to users stays within one tenant, whose bindings go first, and is left out. Six of the tables are created outside the master migrations and have no modelled key but the one from memberships to users.
- EnsureTenantAdminRoleAssignment: new identifiers are assumed unused; a failing query, which the program logs and ignores, is not modelled.
- NormalizeIdempotentIff: letter case is ASCII case, here and in `RpId` and `BackupCodes`; white space is Unicode's.
- Conservation: attempts run one after the other; `BackupCodeRaces` covers attempts that overlap.
- ClientLimit: one check at a time; `ClientLimitAtTheLocks` covers checks that interleave.
- CreateDomain: the contract is for a call whose check and insert are not interleaved with others; `InsertRefusedIff` covers those that are.
