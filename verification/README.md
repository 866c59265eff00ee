# LuoluoAuth, verified

A Dafny model of the state LuoluoAuth keeps, and proofs of what that state is relied on for: sessions and
the logins that compete for them, distributed locks, OAuth2 tokens with rotation and families, one-time and
device codes, nonces, rate limits, permissions and time-ordered token names.

`dafny verify dfyconfig.toml` checks everything.

## How it is organised

Code that updates state in place is a class whose methods loop and assign as the original does; each method
is proved equal to a step function on values. The theorems are about those step functions, over every run:
a run is a sequence of events, and an event whose guard does not hold changes nothing.

| files | what they model |
|---|---|
| `Js`, `Redis`, `Sessions`, `LoginPolicy` | insertion-ordered `Map`, `setTimeout`'s delay rule, truthiness; Redis keys, sets and expiry; session records and their order; policies |
| `Lease`, `MemoryLock`, `RedisLock` | one lease lock and the two locks meant to be it |
| `LoginProtocol`, `LoginLimits` | any number of logins and token rotations interleaved step by step, with logouts, kicks and expiry in between; where the limits of login policies end |
| `AccountProtocol`, `AccountLimits` | any number of logins of one device, each reading its sessions one by one, interleaved with token rotations; where the account limit ends |
| `AuthService`, `LoginEffect`, `AuthLogins`, `AuthRuns`, `LoginSteps` | login end to end over the in-memory store, all that one login does, who it refuses and ends, runs of logins one after another, and that the protocols' steps are the service's |
| `MemoryStore`, `MemoryStoreRuns` | the in-memory session store with its recency order and expiry timers |
| `RedisStore`, `RedisStoreRuns`, `RedisStoreLimits`, `SessionTable`, `StoresAgree` | the Redis session store with its indexes and how far they go, the plain table both stores stand for, and their agreement |
| `OAuthStore`, `OAuthMemoryStore`, `OAuthRotation`, `OAuthRedisStore`, `OAuthController` | the token store, its two implementations, interleaved refresh grants, the token endpoint |
| `AuthorizationGrant`, `RedisCodes`, `DeviceGrant` | authorization codes, in memory and in Redis, and device codes over whole runs |
| `NonceStore`, `SignatureGuard` | nonces and the gate for signed requests |
| `RateLimit` | the sliding window in memory and in the Lua script |
| `Permission`, `Bytes`, `UuidV7`, `RandomToken` | wildcard permissions, bytes and their masks, UUID version 7, token rotation |

The clock is a parameter that never goes back; what `randomUUID` and random bytes give is a parameter too,
and where a theorem needs a name to be new it says so.

## What turned out not to hold

Each of these has a lemma that says exactly when it does hold.

- README.md:250 of the repository promises one session per user under `single`; the login lock is per user and
  device, and two devices can end with two sessions (`LoginLimits.SingleIffOneKey`).
- Without login locking no policy bounds anything (`LoginLimits.BoundIffLocking`).
- Token rotation takes no lock. Two rotations of one session that both read before either deletes leave two, and
  so does one that stores after its session was ended, or was about to be (`LoginProtocol.RotationAddsIff`). Each
  such fault, and each session a login's listing misses, can be one session over the limit for good, and nothing
  else can (`LoginLimits.FaultsIff`).
- Rotation drops the session's lifetime (`RandomToken.RotationMoves`), and in a full store ends somebody else's
  session (`RandomToken.RotationKeepsOthersIff`).
- So does a login in a full store (`AuthLogins.OthersStayIff`), which may also take one of the user's newer
  sessions before an older one (`AuthLogins.OldestGoIff`).
- A refused login has already ended the sessions its policy was to end (`AuthLogins.RefusedUnchangedIff`).
- With `maxSameDeviceSessions` at or below zero the multi-account path throws (`AuthLogins.TypeErrorIff`).
- The login lock does nothing for the account limit of a device, which is about several users: two logins at once
  pass it (`AccountLimits.LimitIff`). With one login reading while those on the device have their tokens rotated, no
  number bounds the accounts (`AccountLimits.BoundedIff`). One login after another keeps it, whatever is renewed,
  rotated or ended in between (`AuthRuns.AccountsBounded`).
- Ending a session between a rotation's read and its store ends nothing: the rotation stores it again, for good
  (`RandomToken.RotationInSteps`, `LoginLimits.EndedComesBack`).
- README.md:266 of the repository kicks a user off one device; over the in-memory store all the user's devices go
  (`AuthRuns.KickSparesIff`).
- A memory lock held for longer than `setTimeout` can wait is given away at once (`MemoryLock.LeaseIff`).
- A session that outlives one `setTimeout` leaves a timer that renewing does not cancel
  (`MemoryStoreRuns.EarlyIff`).
- The in-memory store exceeds its capacity when it is full and the session touched least recently has the empty id
  (`MemoryStoreRuns.CapacityIff`).
- The Redis session indexes miss sessions when lifetimes are mixed (`RedisStoreLimits.CoverageIff`) or a renewal
  outlives the index (`RedisStoreLimits.RenewIff`), or when a deletion by user overtakes a login
  (`RedisStoreLimits.LateDropIff`).
- A device's set in Redis keeps sessions that have expired (`RedisStoreLimits.RawDeviceSetIff`).
- A renewal can mean different things to the two session stores (`StoresAgree.RenewalAgreesIff`).
- The Redis limiter lets any burst within one millisecond through (`RateLimit.ScriptWindowIff`), and so differs from
  the one in memory (`RateLimit.AgreeIff`).
- A request without a user shares its rate limit with one of a user whose name and address together read as its
  address (`RateLimit.SameKeyIff`).
- Revoking a family while a rotation is under way does not end it (`OAuthRotation.RevocationIsFinalIff`), and a token
  presented twice at once gets there from any state (`OAuthRotation.RevocationEscaped`).
- An authorization code in Redis can be answered to two exchanges that read it before either deletes it
  (`RedisCodes.OneUseIff`).
- A signed request dated ahead of the clock, or any once the nonce store has been filled with others, can be accepted
  twice (`SignatureGuard.AcceptedAgainIff`, `SignatureGuard.ReplayIff`).
- `uuidv7` is documented with 74 random bits (src/auth/strategies/random-token.strategy.ts:13); it keeps 58, and its
  last two bytes are zero (`UuidV7.SameNameIff`).

## Model

| member | source | states |
|---|---|---|
| LoginProtocol.BoundHolds | src/auth/auth.service.ts:181-280 | with locking on and every session stored inside its lease, in every interleaving of logins and token rotations over any listings: a user's sessions under one policy exceed its limit by no more than the faults of the run (sessions a listing misses, rotations of sessions already ended, replaced or about to be) and the rotations between storing and deleting |
| LoginProtocol.RotationAddsIff | src/auth/strategies/random-token.strategy.ts:153-169 | a rotation's store adds a session that stays exactly when the one it read is no longer one that stays |
| LoginProtocol.ExactListing | src/auth/auth.service.ts:206-219 | a listing of exactly the sessions the policy looks at is no fault |
| LoginLimits.LoginUndisturbed | src/auth/auth.service.ts:181-280 | a login that nothing comes between deletes exactly the oldest listed past the limit, stores its session and frees the lock |
| LoginLimits.FaultsTight | src/auth/auth.service.ts:181-280 | with leases of some length, for every number of faults a timely run of logins and rotations ends exactly that far over the limit, with nothing under way |
| LoginLimits.FaultsIff | src/auth/auth.service.ts:181-280 | timely runs with at most k faults stay within m of the limit exactly when k is at most m, or leases have no length |
| LoginLimits.BoundIffLocking | src/auth/auth.service.ts:181-200 | the limit holds after every timely run without faults and with no rotation under way exactly when locking is on |
| LoginLimits.NobodyWaitsUnlocked | src/auth/auth.service.ts:181-200 | without locking a login begins at once, whoever else has |
| LoginLimits.OverrunBreaksBound | src/auth/auth.service.ts:186-258 | logins that outlive their leases, or take none, reach any number of sessions, with no rotation and no fault |
| LoginLimits.EndedComesBack | src/auth/strategies/random-token.strategy.ts:153-169 | a session ended after a rotation has read it comes back under the new token, unless the rotation gives up |
| LoginLimits.SingleIffOneKey | src/auth/auth.service.ts:286-288 | `single` keeps two devices of a user to one session after every timely run without faults and with no rotation under way exactly when the devices have the same name, nameless ones counting as `unknown`, or leases have no length |
| AuthService.AuthService.LoginUser | src/auth/auth.service.ts:201-275 | policy, multi-account check and storing of a login leave exactly the store and outcome of the step function |
| LoginEffect.LoginExact | src/auth/auth.service.ts:201-275 | told by the sessions stored before and after: under `single` all of the user's go, under `mutual-exclusion` exactly the oldest past `maxSameDeviceSessions` less one; the account check takes what has expired on the device, refuses exactly a user not on a full device, and makes room the same way; the session is stored for its own lifetime; everything else keeps its data and deadline |
| LoginEffect.SparesBelowLimit | src/auth/auth.service.ts:214-219 | below the limit a login ends no readable session of the user on the device, unless the store is full |
| LoginSteps.SurplusIsPolicy | src/auth/auth.service.ts:201-224 | what the protocol of interleaved logins lists and deletes is what the service's policy does |
| LoginSteps.DecidedIsMultiAccount | src/auth/auth.service.ts:316-365 | the protocol of interleaved account checks decides, deletes and throws as the service does |
| AuthService.AuthService.HandleMultiAccountLogin | src/auth/auth.service.ts:316-365 | reads every session listed on the device, refuses, throws or deletes the user's oldest, as the step function says |
| AuthService.AuthService.DeleteOldest | src/auth/auth.service.ts:213-219 | the deletion loop takes the first sessions of the list, and nothing past its end |
| AuthService.AuthService.KickUser | src/auth/auth.service.ts:443-457 | over the in-memory store a kick ends all the user's sessions, whatever the device |
| AccountProtocol.AccountsWithinFaults | src/auth/auth.service.ts:316-365 | in every interleaving of logins and rotations, locked or not, with sessions disappearing at any moment, a device's accounts exceed `maxAccounts` by no more than the faults of the run: logins let through by what they have found while the device has all its accounts, or is to have them |
| AccountProtocol.LimitAlone | src/auth/auth.service.ts:316-365 | with one login or rotation at a time, and sessions disappearing meanwhile, the limit is kept |
| AccountLimits.CheckUndisturbed | src/auth/auth.service.ts:328-349 | a check that nothing comes between finds all accounts there and decides by them |
| AccountLimits.LoginUndisturbed | src/auth/auth.service.ts:316-365 | a login that nothing comes between is refused and changes nothing, or deletes what it decided and stores its session unless it throws |
| AccountProtocol.RunApart | src/auth/auth.service.ts:286-288 | with locking on, no run has two logins of one user on the device at once |
| AccountLimits.LimitIff | src/auth/auth.service.ts:181-200 | the limit is kept in every run with at most c logins and rotations at once exactly when c is at most one or nobody is let in, with the lock or without |
| AccountLimits.BoundedIff | src/auth/auth.service.ts:328-349 | some number bounds the accounts in all such runs under the same condition only: otherwise any number is reached |
| AccountLimits.FaultsIff | src/auth/auth.service.ts:316-365 | runs with at most k faults stay within m accounts of the limit exactly when k is at most m, or nobody is let in |
| AuthRuns.AccountsBounded | src/auth/auth.service.ts:316-350 | in every run of logins one after another, with renewals, rotations, kicks and timers in between, a device holds no more accounts than `maxAccounts`, counting its unexpired sessions or all that are stored |
| AuthRuns.RenewalKeepsIff | src/auth/auth.service.ts:589-594 | in any store, renewing a stored session, expired or not, adds its user to the accounts of its device exactly when the user has no unexpired session there |
| AuthRuns.RefusedInRunIff | src/auth/auth.service.ts:346-349 | after every run a login is refused exactly when the device is full and the user is not on it, before the policy deletes anything: a user on the device is never refused |
| AuthLogins.RefusedIff | src/auth/auth.service.ts:202-229 | in any state, for every policy: refused exactly when the device is full and the user not on it, or is over-full, as no run makes it, and the policy takes the user off it |
| AuthLogins.RefusedUnchangedIff | src/auth/auth.service.ts:202-229 | a refused login leaves all sessions as they were exactly when its policy had none of the user's to end |
| AuthLogins.TypeErrorIff | src/auth/auth.service.ts:351-364 | reading past the user's sessions happens exactly for a limit at or below zero under `multiple` with the user on the device |
| AuthLogins.DeviceBound | src/auth/auth.service.ts:206-224 | after a login the user has no more sessions on the device than `maxSameDeviceSessions`, or one |
| AuthRuns.DeviceBounded | src/auth/auth.service.ts:206-224 | in every run, renewals and rotations included, no user has more sessions on a device than that, counting the unexpired ones or all that are stored |
| AuthLogins.OldestGoIff | src/auth/auth.service.ts:351-364 | at any capacity: of the user's sessions on the device the ones a login ends are no newer than the ones it keeps exactly when what it evicts, if one of them, is the oldest left |
| AuthLogins.OthersStayIff | src/auth/auth.service.ts:201-258 | at any capacity: a login leaves every session of other users exactly when it does not come to storing or what it evicts, if anything, is not one of theirs |
| AuthLogins.VictimWhenFull | src/auth/stores/memory-store.ts:335-346 | a login evicts exactly when its session is new and the store full, and then the session touched least recently, unless its id is empty |
| AuthRuns.KickSparesIff | src/auth/auth.service.ts:443-457 | over the in-memory store a kick off one device leaves the user's other devices exactly when the user has none |
| Lease.Exclusive | src/auth/distributed-lock/distributed-lock.interface.ts:15-28 | of two successful attempts on a key the earlier was released in between or had run out |
| Lease.AcquiresIff | src/auth/distributed-lock/distributed-lock.interface.ts:15-28 | an attempt succeeds exactly when every earlier hold on the key was released in between or has run out |
| Lease.HoldStays | src/auth/distributed-lock/distributed-lock.interface.ts:15-28 | until its own release or deadline nothing takes a hold away |
| MemoryLock.MemoryDistributedLock.Acquire | src/auth/distributed-lock/memory-distributed-lock.ts:14-38 | takes a free or expired key, replaces its timer, refuses a held one |
| MemoryLock.MemoryDistributedLock.Release | src/auth/distributed-lock/memory-distributed-lock.ts:40-49 | frees the key and its timer only for the token that holds it |
| MemoryLock.MemoryDistributedLock.FireTimer | src/auth/distributed-lock/memory-distributed-lock.ts:25-31 | a pending timer frees only the entry it belongs to |
| MemoryLock.OldTimersAreGone | src/auth/distributed-lock/memory-distributed-lock.ts:14-49 | in every run each pending timer belongs to the current holder of its key |
| MemoryLock.RefinesLease | src/auth/distributed-lock/memory-distributed-lock.ts:14-49 | every run answers as the lease lock does, for times `setTimeout` can wait |
| MemoryLock.OverflowBreaksLease | src/auth/distributed-lock/memory-distributed-lock.ts:25-31 | for any longer time some run does not |
| MemoryLock.LeaseIff | src/auth/distributed-lock/memory-distributed-lock.ts:14-49 | with one lease time for all, the lock is a lease lock exactly up to 2147483647 ms |
| RedisLock.RedisDistributedLock.Acquire | src/auth/distributed-lock/redis-distributed-lock.ts:14-25 | SET NX PX on the prefixed key |
| RedisLock.RedisDistributedLock.Release | src/auth/distributed-lock/redis-distributed-lock.ts:27-36 | a token that does not hold the key changes nothing; one that does frees it, and no other key |
| RedisLock.RefinesLease | src/auth/distributed-lock/redis-distributed-lock.ts:14-36 | every run answers as the lease lock does |
| MemoryStore.MemoryStore.Set | src/auth/stores/memory-store.ts:66-85 | cancels the old timer, stores, schedules, touches and evicts, exactly |
| MemoryStore.MemoryStore.Get | src/auth/stores/memory-store.ts:92-106 | answers and touches an unexpired session, drops an expired one |
| MemoryStore.MemoryStore.Delete | src/auth/stores/memory-store.ts:314-321 | removes the session, its timer and its place in the recency order |
| MemoryStore.MemoryStore.DeleteByUserId | src/auth/stores/memory-store.ts:121-128 | removes exactly the user's sessions while walking the map |
| MemoryStore.MemoryStore.ListByUserId | src/auth/stores/memory-store.ts:135-143 | the records of exactly the user's sessions in insertion order |
| MemoryStore.MemoryStore.ListByDevice | src/auth/stores/memory-store.ts:150-158 | exactly the device's session ids in insertion order |
| MemoryStore.MemoryStore.ListByUserIdAndDevice | src/auth/stores/memory-store.ts:167-179 | exactly the user's ids on the device, oldest first, ties in insertion order |
| MemoryStore.MemoryStore.RenewSession | src/auth/stores/memory-store.ts:186-204 | a stored session gets a new deadline and timer and becomes the most recent |
| MemoryStore.MemoryStore.Clear | src/auth/stores/memory-store.ts:209-220 | nothing is stored afterwards and exactly the sessions' own timers are cancelled |
| MemoryStore.MemoryStore.ScheduleExpiry | src/auth/stores/memory-store.ts:291-308 | one more pending timer, due after at most what `setTimeout` can wait |
| MemoryStore.MemoryStore.RunTimer | src/auth/stores/memory-store.ts:296-306 | a due timer deletes its session or, if early, schedules another whose handle nobody keeps |
| MemoryStore.MemoryStore.EvictNeeded | src/auth/stores/memory-store.ts:335-346 | above a positive capacity the head of the recency order goes, unless its id is empty |
| Sessions.ByCreateTimeSorts | src/auth/stores/memory-store.ts:167-179 | sorting by creation time gives an ascending list without repetition |
| MemoryStoreRuns.KeysAgree | src/auth/stores/memory-store.ts:66-204 | in every run the session map and the recency order hold the same sessions |
| MemoryStoreRuns.SizeBounded | src/auth/stores/memory-store.ts:335-346 | with non-empty ids no run exceeds a positive capacity |
| MemoryStoreRuns.OverfillsIff | src/auth/stores/memory-store.ts:335-346 | after any run within capacity, a step exceeds it exactly when it sets a new session while the store is full and the session touched least recently has the empty id |
| MemoryStoreRuns.CapacityIff | src/auth/stores/memory-store.ts:335-346 | a run stays within a positive capacity throughout exactly when no step of it does that |
| MemoryStoreRuns.EmptyIdOverfills | src/auth/stores/memory-store.ts:343 | for every positive capacity some run does |
| MemoryStoreRuns.RecencyOrder | src/auth/stores/memory-store.ts:327-330 | in every run the recency order is the order in which sessions were last set, read or renewed |
| MemoryStoreRuns.EvictsLeastRecent | src/auth/stores/memory-store.ts:335-346 | a set evicts, when full, exactly the session touched least recently and never the one set |
| MemoryStoreRuns.ReadBack | src/auth/stores/memory-store.ts:66-106 | a session set or renewed is read back, at any capacity, exactly until its lifetime in milliseconds is over; without one, or with 0, until the largest safe integer |
| MemoryStoreRuns.FiresOnce | src/auth/stores/memory-store.ts:296-306 | in every run a due timer fires once: at the deadline its session goes, before it exactly one new timer waits for the rest, for at most 2147483647 ms |
| MemoryStoreRuns.NeverEarly | src/auth/stores/memory-store.ts:291-308 | with lifetimes `setTimeout` can wait for, or none, no timer of any run removes a session before its deadline |
| MemoryStoreRuns.ChainedTimerIsEarly | src/auth/stores/memory-store.ts:303 | for any longer lifetime a renewed session is removed at its first deadline |
| MemoryStoreRuns.EarlyIff | src/auth/stores/memory-store.ts:291-308 | one lifetime for all is safe in every run exactly up to 2147483647 ms |
| RedisStore.RedisStore.Set | src/auth/stores/redis-store.ts:82-110 | session key and both index sets after the pipeline, with their expiries |
| RedisStore.RedisStore.Get | src/auth/stores/redis-store.ts:117-126 | the session while its key lives |
| RedisStore.RedisStore.Delete | src/auth/stores/redis-store.ts:133-155 | the session and its entries in the index sets are gone |
| RedisStore.RedisStore.DeleteByUserId | src/auth/stores/redis-store.ts:162-208 | every session indexed for the user is gone, from the device sets too, and the user's set |
| RedisStore.RedisStore.DeleteByUserIdAndDevice | src/auth/stores/redis-store.ts:217-259 | the user's live sessions on the device are gone, and vanished ids are cleaned out |
| RedisStore.RedisStore.ListByUserId | src/auth/stores/redis-store.ts:266-293 | the records of exactly the live sessions in the user's index, each once |
| RedisStore.RedisStore.ListByUserIdAndDevice | src/auth/stores/redis-store.ts:312-349 | exactly the live sessions of the user's index on the device, oldest first |
| RedisStore.RedisStore.RenewSession | src/auth/stores/redis-store.ts:356-363 | a new expiry for the session key alone |
| RedisStoreRuns.AnswersLikeTable | src/auth/stores/redis-store.ts:82-349 | under lifetimes and renewals the indexes serve, every schedule leaves the plain table's sessions, and for every user, user and device, and device the live sessions listed are exactly the table's |
| RedisStoreLimits.CoverageIff | src/auth/stores/redis-store.ts:82-110 | the indexes cover every session in every schedule, renewals included, exactly when lifetimes are all absent, or all given, within sixty seconds of one another and never prolonged |
| RedisStoreLimits.RenewIff | src/auth/stores/redis-store.ts:356-363 | on any server a renewed session stays listed under its user, and on its device, for as long as it lives exactly when the index has no deadline or one no earlier than the session's new one |
| RedisStoreLimits.RawDeviceSetIff | src/auth/stores/redis-store.ts:300-303 | a device's set as it stands is exactly the sessions on the device, in every schedule, exactly when no session is given or renewed for a lifetime |
| RedisStoreLimits.LateDropIff | src/auth/stores/redis-store.ts:162-208 | when other operations come between a deletion by user reading the index and deleting it, the indexes still cover every session exactly when every session the user then has was read |
| RedisStoreLimits.DropsWhatItRead | src/auth/stores/redis-store.ts:162-208 | the deletion in one piece is that second half applied to what it reads at the same instant |
| RedisStoreLimits.ReadBack | src/auth/stores/redis-store.ts:82-126 | a session set or renewed is read back for every whole second before its lifetime in milliseconds is over, and for ever without one |
| RedisStoreLimits.CleansVanished | src/auth/stores/redis-store.ts:217-259 | a deletion by user and device takes exactly the user's indexed sessions on the device, and out of both indexes those and the ones that have vanished |
| StoresAgree.QuietMemoryIsTable | src/auth/stores/memory-store.ts:66-128 | with every due timer run, the in-memory store holds exactly the plain table's sessions |
| StoresAgree.SameSessions | src/auth/stores/redis-store.ts:82-349 | the two stores give the same sessions, per user, per user and device, and per device, after every schedule of sets, deletions and renewals that mean the same to both |
| StoresAgree.RenewalAgreesIff | src/auth/stores/memory-store.ts:186-204 | a renewal leaves the stores in agreement exactly when it is not of a session that has expired and is still there, and takes no lifetime away |
| OAuthMemoryStore.InMemoryOAuth2ClientStore.SaveAuthorizationCode | src/extras/oauth2/client-store.ts:286-310 | the code saved is what consuming it answers at every time up to its expiry, and nothing afterwards; other codes are as they were |
| OAuthMemoryStore.InMemoryOAuth2ClientStore.ConsumeAuthorizationCode | src/extras/oauth2/client-store.ts:295-310 | answers an unexpired code and removes it whatever the answer |
| OAuthMemoryStore.InMemoryOAuth2ClientStore.SaveToken | src/extras/oauth2/client-store.ts:317-339 | the three maps after saving and evicting |
| OAuthMemoryStore.InMemoryOAuth2ClientStore.GetToken | src/extras/oauth2/client-store.ts:346-356 | answers an unexpired token, drops an expired one |
| OAuthMemoryStore.InMemoryOAuth2ClientStore.ConsumeRefreshToken | src/extras/oauth2/client-store.ts:363-391 | marks an unused entry used, reports reuse of a used one |
| OAuthMemoryStore.InMemoryOAuth2ClientStore.EvictExpiredTokens | src/extras/oauth2/client-store.ts:396-403 | the deletion loop removes exactly the expired tokens with their entries |
| OAuthMemoryStore.InMemoryOAuth2ClientStore.RemoveFromFamily | src/extras/oauth2/client-store.ts:408-416 | drops one member, and the family with its last |
| OAuthMemoryStore.InMemoryOAuth2ClientStore.RevokeTokenFamily | src/extras/oauth2/client-store.ts:423-438 | every entry of the family and its access token are gone |
| OAuthMemoryStore.InMemoryOAuth2ClientStore.RevokeRefreshToken | src/extras/oauth2/client-store.ts:444-461 | one entry, its access token and its place in the family are gone |
| OAuthMemoryStore.InMemoryOAuth2ClientStore.RemoveToken | src/extras/oauth2/client-store.ts:467-483 | one access token, its entry and its place in the family are gone |
| OAuthStore.StepKeepsConsistent | src/extras/oauth2/client-store.ts:317-483 | with new names every operation keeps families exactly the entries grouped by family, none empty, and tokens pointing at entries that point back |
| OAuthStore.EvictionExact | src/extras/oauth2/client-store.ts:396-403 | a save's eviction removes exactly the expired access tokens and their entries |
| OAuthStore.FoundUntil | src/extras/oauth2/client-store.ts:317-391 | a token saved at t under new names is found, and its refresh token rotates, exactly until `expiresIn` seconds after t |
| OAuthStore.LookupLeaves | src/extras/oauth2/client-store.ts:346-356 | a lookup drops the token asked for if it has expired, and nothing else |
| OAuthStore.ConsumeLeaves | src/extras/oauth2/client-store.ts:363-391 | a refresh token presented takes its pair away if that has expired, is marked otherwise, and nothing else changes |
| OAuthStore.RevokeFamilyLeaves | src/extras/oauth2/client-store.ts:423-438 | exactly the family's entries and their access tokens go; every other family stays whole |
| OAuthStore.RevokeRefreshLeaves | src/extras/oauth2/client-store.ts:444-461 | exactly the entry, its access token and its place in the family go |
| OAuthStore.RemoveOne | src/extras/oauth2/client-store.ts:467-483 | removing one token changes nothing but it, its entry and that entry's family |
| OAuthRotation.OneWayForward | src/extras/oauth2/client-store.ts:363-391 | in every interleaving each family has at most one unused refresh token or rotation under way, never both |
| OAuthRotation.RedeemedAtMostOnce | src/extras/oauth2/oauth2.controller.ts:524-549 | no refresh token is redeemed twice in a run |
| OAuthRotation.RedeemedIsNotRedeemable | src/extras/oauth2/client-store.ts:363-391 | a redeemed token is answered as reuse while its pair lives and as unknown after |
| OAuthRotation.RevokedIsDead | src/extras/oauth2/client-store.ts:423-438 | revoking a family with no rotation under way leaves nothing of it |
| OAuthRotation.DeadForEver | src/extras/oauth2/oauth2.controller.ts:531-538 | and nothing of it comes back in any continuation |
| OAuthRotation.FlightSurvivesRevocation | src/extras/oauth2/oauth2.controller.ts:541-549 | a rotation under way saves a working pair after its family was revoked |
| OAuthRotation.RevocationIsFinalIff | src/extras/oauth2/oauth2.controller.ts:531-538 | every token ever saved under a revoked family is rejected for ever exactly when no rotation was under way |
| OAuthRotation.RevocationEscaped | src/extras/oauth2/oauth2.controller.ts:524-549 | from any state, a grant whose token is presented twice before either rotates: the reuse is detected, the family revoked, and its tokens are not rejected for ever |
| OAuthRotation.FailedThenFinal | src/extras/oauth2/oauth2.controller.ts:531-549 | once the rotation under way has failed, the revocation is final |
| OAuthRotation.IdleHourEndsAll | src/extras/oauth2/oauth2.controller.ts:541-549 | after every run, more than an hour without a save leaves no pair of any family accepted |
| OAuthController.OAuth2Controller.HandleRefreshToken | src/extras/oauth2/oauth2.controller.ts:504-552 | consume, then save under the same family or revoke it, with the store and outcome of the step function |
| OAuthController.RefreshAnswers | src/extras/oauth2/oauth2.controller.ts:504-552 | an unused refresh token of an unexpired pair gives, and only it gives, a new pair for the same user, scope and family and for an hour; a used one ends its family; anything else is refused |
| OAuthController.OAuth2Controller.HandleAuthorizationCode | src/extras/oauth2/oauth2.controller.ts:359-416 | the code is consumed first, then client, redirect address and PKCE are checked in order, and only a granted exchange saves a token |
| OAuthController.GrantedIsFound | src/extras/oauth2/oauth2.controller.ts:402-412 | with new names the token of a grant is found for an hour, for the user and scope it was granted for, and its refresh token rotates as long |
| OAuthController.RefreshIsTwoSteps | src/extras/oauth2/oauth2.controller.ts:524-549 | the handler in one piece is the two steps of the interleaved grants with nothing in between |
| OAuthRedisStore.RedisOAuth2ClientStore.SaveToken | src/extras/oauth2/redis-client-store.ts:207-233 | keys and family set after the pipeline, with their expiries |
| OAuthRedisStore.RedisOAuth2ClientStore.GetToken | src/extras/oauth2/redis-client-store.ts:240-243 | the token while its key lives |
| OAuthRedisStore.RedisOAuth2ClientStore.ConsumeRefreshToken | src/extras/oauth2/redis-client-store.ts:251-300 | the script's marking with the lifetime left, then the token |
| OAuthRedisStore.RedisOAuth2ClientStore.RevokeTokenFamily | src/extras/oauth2/redis-client-store.ts:307-330 | every live entry of the family set and its token are gone, and the set |
| OAuthRedisStore.RedisOAuth2ClientStore.RevokeRefreshToken | src/extras/oauth2/redis-client-store.ts:336-352 | one entry, its token and its membership are gone |
| OAuthRedisStore.RedisOAuth2ClientStore.RemoveToken | src/extras/oauth2/redis-client-store.ts:358-377 | one token, its entry and its membership are gone |
| OAuthRedisStore.SameAnswers | src/extras/oauth2/redis-client-store.ts:207-377 | before anything expires both stores answer every operation of every run alike |
| OAuthRedisStore.RFoundUntil | src/extras/oauth2/redis-client-store.ts:207-300 | in Redis a pair saved at second t is found and rotates, and is in its family, exactly before t and the store's lifetime |
| OAuthRedisStore.MarkingKeepsLifetimes | src/extras/oauth2/redis-client-store.ts:251-300 | marking a token used changes no lifetime, and a marked one is answered as reuse for what is left of it |
| OAuthRedisStore.PartAtExpiry | src/extras/oauth2/client-store.ts:346-391 | after a run before any expiry, at any time: the stores agree on a saved access token and on its refresh token, used or not, exactly when it is not stored, or the store's lifetime and the token's own, counted from the save, are over for both or for neither |
| AuthorizationGrant.GrantedIff | src/extras/oauth2/oauth2.controller.ts:359-416 | in every run a presentation gets a token exactly when the code was given out, never presented before, within ten minutes, to this client, for the redirect address if one is sent, and the verifier or its hash is the challenge, or there is none and the client is not public; the token is for its user and scope |
| AuthorizationGrant.AnsweredIff | src/extras/oauth2/oauth2.controller.ts:359-416 | which error each failed condition gives, in every run and for every request |
| AuthorizationGrant.FirstPresentationOnly | src/extras/oauth2/client-store.ts:295-310 | a code yields nothing after its first presentation, even a failed one |
| AuthorizationGrant.GrantedOnce | src/extras/oauth2/oauth2.controller.ts:359-416 | no code yields two tokens |
| RedisCodes.OneUseIff | src/extras/oauth2/redis-client-store.ts:178-200 | with every exchange finished, a code in Redis was answered once at most exactly when no exchange found it between another's GET and DEL |
| RedisCodes.AnsweredTwice | src/extras/oauth2/redis-client-store.ts:182-199 | two exchanges side by side are both answered |
| RedisCodes.Conserved | src/extras/oauth2/redis-client-store.ts:182-199 | every find of a code in time is answered or about to be |
| RedisCodes.AloneIff | src/extras/oauth2/redis-client-store.ts:178-200 | an exchange that nothing comes between is answered exactly when its code was saved, is there and in time |
| OAuthController.OAuth2Controller.DeviceAuthorize | src/extras/oauth2/oauth2.controller.ts:708-723 | a new pending entry with ten minutes to live |
| OAuthController.OAuth2Controller.DeviceVerify | src/extras/oauth2/oauth2.controller.ts:742-788 | the loop confirms, or drops if expired, the oldest pending entry with the user code |
| OAuthController.OAuth2Controller.HandleDeviceCodeToken | src/extras/oauth2/oauth2.controller.ts:798-836 | a confirmed unexpired code is taken out and its token saved, every other case leaves an error and saves nothing |
| DeviceGrant.IssuesIff | src/extras/oauth2/oauth2.controller.ts:798-836 | in every run a poll gets a token exactly when the code was confirmed, has had none, and is within its ten minutes; the token is for the first user who confirmed and the scope asked for; in time and unconfirmed the answer is to wait, and otherwise which error it is |
| DeviceGrant.ConfirmsIff | src/extras/oauth2/oauth2.controller.ts:742-788 | a confirmation goes to the first unconfirmed code that was given the user code, exactly when that is in time, and which error it is otherwise |
| DeviceGrant.TokenStory | src/extras/oauth2/oauth2.controller.ts:684-836 | behind every token stand one giving out and then one confirmation, the only one ever, and no other token |
| DeviceGrant.ConfirmedOnce | src/extras/oauth2/oauth2.controller.ts:775-785 | no code is confirmed twice |
| DeviceGrant.VerifierStays | src/extras/oauth2/oauth2.controller.ts:775-785 | the user of a confirmed code never changes |
| NonceStore.MemoryNonceStore.RemoveExpired | src/auth/signature/nonce-store.ts:114-121 | the loop removes exactly the expired nonces |
| NonceStore.MemoryNonceStore.AddIfAbsent | src/auth/signature/nonce-store.ts:95-109 | refuses a nonce on record, otherwise makes room and records it |
| NonceStore.MemoryNonceStore.Record | src/auth/signature/nonce-store.ts:74-86 | records anew, moving a known nonce to the end |
| NonceStore.MemoryNonceStore.Has | src/auth/signature/nonce-store.ts:49-66 | finds an unexpired nonce and moves it to the end |
| NonceStore.RecordIff | src/auth/signature/nonce-store.ts:74-86 | a nonce recorded stands for its lifetime from then on; another is lost before its time exactly when the nonce was not on record, the store is full and the other is the oldest |
| NonceStore.HasIff | src/auth/signature/nonce-store.ts:49-66 | a nonce is found exactly when it is on record unexpired and does not expire at 0, and asking changes no answer |
| NonceStore.RunTidy | src/auth/signature/nonce-store.ts:95-121 | every run keeps the entries sorted by expiry and within the capacity |
| NonceStore.RefusedUntilExpiry | src/auth/signature/nonce-store.ts:95-109 | a recorded nonce is refused until its lifetime ends unless as many were recorded since as the store holds |
| NonceStore.ForgottenIff | src/auth/signature/nonce-store.ts:95-109 | among other nonces, it is taken for new exactly when its lifetime is over or that many were |
| SignatureGuard.Guard.CanActivate | src/auth/signature/signature.guard.ts:51-111 | verdict and nonce record after headers, timestamp, nonce and signature are checked in that order |
| SignatureGuard.VerdictIff | src/auth/signature/signature.guard.ts:51-111 | accepted exactly when all three headers are sent, the timestamp is a number within the tolerance, the nonce is not on record unexpired, and the signature is right for method, path, timestamp, nonce and body; and which verdict each failed condition gives |
| SignatureGuard.ParsesDecimal | src/auth/signature/signature.guard.ts:64-68 | a decimal timestamp is read to its value after blanks and a sign, up to the first other character |
| SignatureGuard.ParsesNothing | src/auth/signature/signature.guard.ts:64-68 | without a digit there it is no number |
| SignatureGuard.NeverAcceptedAgain | src/auth/signature/signature.guard.ts:64-84 | no request with the nonce and date of one dated before its first acceptance is accepted again, at any later time, within the nonce capacity |
| SignatureGuard.AcceptedAgainIff | src/auth/signature/signature.guard.ts:64-84 | with other nonces in between, any request with an accepted nonce is accepted exactly when its headers are sent, its timestamp is within the tolerance, its signature is right, and the nonce's lifetime is over or the capacity has been used up |
| SignatureGuard.ReplayIff | src/auth/signature/signature.util.ts:81-88 | with no other traffic a request can be accepted twice exactly when it is dated no earlier than its first acceptance |
| RateLimit.MemoryRateLimiter.Allow | src/auth/rate-limit/memory-rate-limiter.ts:26-43 | the kept timestamps and the verdict of one request |
| RateLimit.RedisRateLimiter.Allow | src/auth/rate-limit/redis-rate-limiter.ts:29-69 | the sorted set, its expiry and the verdict after the script |
| RateLimit.SameKeyIff | src/auth/rate-limit/memory-rate-limiter.ts:58-65 | for actions and users without colons, two requests with a user, or two without, share a window exactly when they agree in action, user and address; one of each exactly when the one's user and address read as the other's address |
| RateLimit.WindowBound | src/auth/rate-limit/memory-rate-limiter.ts:26-43 | for every nondecreasing clock no window holds more allowed requests than the limit |
| RateLimit.RefusedIff | src/auth/rate-limit/memory-rate-limiter.ts:33-42 | a request is refused exactly when the window ending now holds as many allowed ones as the limit |
| RateLimit.SameWhenIncreasing | src/auth/rate-limit/redis-rate-limiter.ts:34-56 | on strictly increasing times the script gives the memory limiter's verdicts |
| RateLimit.BurstDiffers | src/auth/rate-limit/redis-rate-limiter.ts:53 | on equal times it does not |
| RateLimit.ScriptWindowIff | src/auth/rate-limit/redis-rate-limiter.ts:34-56 | the script keeps every window of every run within the limit exactly when the limit is at most one, or there is no window |
| RateLimit.AgreeIff | src/auth/rate-limit/redis-rate-limiter.ts:34-56 | the two agree on every nondecreasing clock exactly for limits up to one, or no window |
| Permission.Transitive | src/auth/permission/permission.engine.ts:73-95 | covering is transitive |
| Permission.Antisymmetric | src/auth/permission/permission.engine.ts:73-95 | permissions that cover each other are the same string |
| Permission.Top | src/auth/permission/permission.engine.ts:75-77 | `*` covers everything and only `*` covers it |
| Permission.SplitInjective | src/auth/permission/permission.engine.ts:85-86 | strings with the same segments are equal |
| Permission.SplitJoin | src/auth/permission/permission.engine.ts:85-86 | segments without colons come back from their joined string |
| Permission.CoversIffIncludes | src/auth/permission/permission.engine.ts:73-95 | one pattern covers another exactly when it covers every wildcard-free permission the other covers |
| Permission.RequiresBoth | src/auth/permission/permission.engine.ts:48-62 | two lists are required together exactly when each is |
| Permission.HasOneIff | src/auth/permission/permission.engine.ts:48-95 | one permission is there exactly when some grant is it, is `*`, or has as many segments, each `*` or the same |
| Permission.RequiresNothing | src/auth/permission/permission.engine.ts:52-54 | requiring nothing is always met |
| Permission.SubstituteIff | src/auth/permission/permission.engine.ts:48-62 | a list of grants can replace another, whatever is required, exactly when it covers each of its grants |
| UuidV7.Uuidv7 | src/auth/strategies/random-token.strategy.ts:16-41 | the buffer written in place gives the layout's text, or the RangeError outside 48 bits |
| UuidV7.WriteBigUInt64BE | src/auth/strategies/random-token.strategy.ts:22-26 | eight bytes, most significant first, in place; fails exactly outside 64 bits |
| UuidV7.Copy | src/auth/strategies/random-token.strategy.ts:27 | the source's bytes from an offset, in place, the rest unchanged |
| UuidV7.Fields | src/auth/strategies/random-token.strategy.ts:16-41 | twelve hex digits read back as the time, version 7, variant 10, hyphens in place |
| UuidV7.SortsByTime | src/auth/strategies/random-token.strategy.ts:12-14 | of two times the earlier gives the lexicographically smaller name, whatever the random bytes |
| UuidV7.SameNameIff | src/auth/strategies/random-token.strategy.ts:16-41 | names are equal exactly when their times and 58 random bits are |
| RandomToken.RandomTokenStrategy.Rotate | src/auth/strategies/random-token.strategy.ts:153-169 | read, store under the new token without a lifetime, delete the old |
| RandomToken.RotationMoves | src/auth/strategies/random-token.strategy.ts:153-169 | left alone, the session goes on under the new token only and never expires any more, so its deadline is kept exactly when it had none |
| RandomToken.RotationInSteps | src/auth/strategies/random-token.strategy.ts:153-169 | with anything between the three calls: the session read is stored under the new token without a lifetime, even if it was ended meanwhile, and the deletion takes the old token only |
| RandomToken.RotationKeepsOthersIff | src/auth/strategies/random-token.strategy.ts:165-166 | no other session changes exactly when the store is below its capacity, unbounded, or holds one |

## Left out

- LoginProtocol.BoundHolds: `deleteByUserId` under `single` is a listing followed by single deletions, finer than the in-memory store's one step and close to the Redis one; new session ids are never used again; a retried lock attempt is one more beginning, and the login rate limit comes before it; the lock is the lease lock, so a memory lock must be within `setTimeout`'s range; a limit at or below zero bounds at one.
- LoginLimits.BoundIffLocking: runs are timely, without faults and at rest from rotations; `LoginLimits.FaultsIff` counts what faults add and `LoginProtocol.BoundHolds` what rotations under way do.
- LoginLimits.SingleIffOneKey: likewise.
- AccountProtocol.AccountsWithinFaults: the policy's deletions, expiry and eviction are sessions disappearing at any moment; a device is one table of what is stored on it, and its listing is exact at its instant, as over the in-memory store.
- AuthRuns.AccountsBounded: logins come one after another, each at one instant; `AccountProtocol` takes them apart.
- RandomToken.RandomTokenStrategy.Rotate: three awaited store calls are one instant here; `RandomToken.RotationInSteps` and `LoginProtocol` take them apart.
- RandomToken.RotationMoves: of one rotation that nothing comes between; `RandomToken.RotationInSteps` says what stays true otherwise, and `LoginProtocol.RotationAddsIff` what two at once leave.
- RedisStoreLimits.CoverageIff: Redis lifetimes are whole seconds, so a renewal for one second prolongs nothing.
- RedisStoreLimits.LateDropIff: the second half of the deletion is one instant.
- StoresAgree.SameSessions: renewals are those that mean the same to both stores (`StoresAgree.RenewalAgreesIff`); ties in creation time may be ordered differently by the two stores; deadlines are compared in whole seconds, as `EX` keeps them, and the in-memory timers due so far have run.
- SignatureGuard.ReplayIff: the clock is read once for a request, and header values are as extracted.
- OAuthRedisStore.SameAnswers: Redis lifetimes are whole seconds and a key is there strictly before its deadline.
- The Redis stores: an operation of several commands is one instant here, and failing pipeline commands are not modelled; only logins, token rotations, refresh grants, code exchanges and one deletion are taken apart into steps.
- Session records keep user, device and creation time; roles, permissions, address, user agent and the remember-me flag ride along unchanged and are not modelled.
- Saved tokens are values: the in-memory store's sharing of a token object with its caller is not captured.
- `switchIdentity`, `switchAccount` and `openSafeAuth`/`closeSafeAuth`, which store sessions outside the login lock and its policies.
- The black lists (`ban`, `unban`, `isBanned`), `hasRole`, audit logs, listings of online sessions: easy members only.
- Random bytes, UUID version 4, HMAC, SHA-256, JWT, bcrypt, argon2 and SAML: parameters or not part of this model.
- HTTP, cookies, NestJS modules and decorators, WebSocket and RPC token extraction, third-party providers, SSO, OIDC metadata.
- `ulid` and the fixed-length random tokens, which have no layout of this repository's own.
- Numbers are integers: parsing of timestamps beyond 2^53 does not round.
