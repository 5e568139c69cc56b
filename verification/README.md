# Verification of the integration hub

idmMw accepts an event once, runs it against a connector with retries, parks what fails in a dead-letter queue
(DLQ), and keeps everything under a rotating encryption keyring. This project models that logic in Dafny and
proves what it keeps. `dafny verify dfyconfig.toml` checks all of it.

## Structure

| files | subject |
|---|---|
| `Json`, `Text`, `Powers` | JSON values, strings, powers of two |
| `IdempotencyStore`, `IdempotencyService`, `LockProtocol`, `LockLifetimes` | the expiring lock table, its two stores, locks under several keys, and many workers interleaved |
| `Retry`, `Processing`, `Webhooks`, `AsyncBooks`, `KafkaWorker` | one event from its webhook to the connector, the DLQ or the queue, and the books of whole asynchronous runs |
| `Dlq`, `DlqProtocol`, `Admin` | the dead-letter queue, its lease, and manual retries |
| `Encryption`, `EncryptedDatabase`, `RotationProtocol`, `EncryptionRotation` | envelopes and the keyring, the encrypted tables, and key rotation with failures, crashes and re-runs |
| `SecretKeys`, `SecretRedaction`, `ConfigPaths`, `TargetSystems`, `ConnectorRouting`, `RegistryProtocol`, `ConnectorRegistry` | masked configurations, their editing, and the connector cache |
| `StableStringify`, `JsonReader`, `CollationTies`, `IntegrationAuth` | canonical printing, a reader of JSON texts, and request signatures |
| `IpUtils`, `DottedDecimal`, `ObjectCounts`, `Metrics` | address allowlists in 32-bit arithmetic and as texts, counting in plain objects, and the five-minute window |

Services that update state are classes whose methods are proved against functions of the old state. Protocols with
several processes (`LockProtocol`, `DlqProtocol`, `RotationProtocol`, `RegistryProtocol`) are transition systems with
one step per store call; their theorems are about every run. Whether an external call works is a parameter of the
method that makes it, so each contract holds for every pattern of failures unless its hypotheses say otherwise.

Libraries are uninterpreted: AES-GCM is a pair of functions of which one undoes the other, HMAC and SHA-256 are
functions without collisions among the values at hand, `JSON.parse` undoes `JSON.stringify`, and the clock does not
go back. `Number(text)`, where the code uses it, is a parameter.

## What the code does not promise

Each of these is a lemma or a clause of a contract.

- A second worker gets inside exactly when the first holder's deadline has passed (`JoinedIffLate`), and a DLQ item
  is claimed a second time exactly when the first claim is over the second one's lease (`DlqProtocol.JoinedIffLate`).
- Workers that overlap while the active key changes lock the same event under different keys and are both inside
  (`DifferentActiveKeysExcludeNothing`); they exclude each other exactly when all have one active key
  (`ExclusionIffSameActive`).
- A process locks a held event exactly when its keyring lacks the key the lock was taken under
  (`LockedIffFreeOrKeyDropped`).
- A failure of the PostgreSQL lock store is answered as a duplicate, so the event is not processed (`AnswerTo`, the
  case `!ok`).
- Two targets can have events that share a lock exactly when one name continues the other after a colon
  (`TargetsShareLocksIff`).
- A lost status message releases the lock of an event that was delivered or parked; so does a failure after the DLQ
  row was created (`ReleasedThoughAccounted` says exactly when). A failed delete leaves the lock of an event that is
  nowhere (`WebhookService.ProcessWrite`).
- A read through a connector's own schema or sync call keeps its lock even when the call reports failure
  (`WebhookService.ProcessRead`).
- A skip or a resolution is final exactly when no claim on the item is outstanding (`EndIsFinalIffUnclaimed`): a
  worker that fails makes the item pending again, also after it has resolved it and only the count failed.
- An item whose payload cannot be read, whose retry message cannot be sent, or whose update fails after its retry,
  stays claimed until its lease has passed (`AdminService.RowAfter`, `RetriedRowMeans`).
- docs/SECURITY_TLS_ENCRYPTION.md (lines 249-250) describes a rollback: set the active key back and run the rotation
  again. After a rotation that did not finish, that run returns early (`RollbackDoesNothing`); the database is under
  the old key exactly when nothing had been rewritten (`RolledBackIffNothingWasRewritten`), and the startup guard
  accepts a keyring that cannot read the rest (`FailedRotationLocksOut`). The model follows the code.
- A secret inside an array is replaced by its mask when an unedited configuration is saved
  (`SavingAnUneditedSystemKeepsIt` gives the exact condition).
- A write between the two reads of a reload is never noticed by the poller (`WriteBetweenReadsIsMissed`), nor is an
  update with the latest stamp, or with an earlier one while another row has the latest (`UpdateIsMissedIff`).
- The startup guard accepts a worker in rotation mode whose active key is not the database's. What it writes is under
  its own key while the state still says `completed` with the other one, and a later startup that is accepted cannot
  read it (`RotationModeWorkerLocksOut`). Exactly the workers with the database's active key keep it under one key
  (`WritesKeepOneKeyIff`).
- The five-minute counts are kept in plain objects, where a name inherited from `Object.prototype` is never absent. A
  sample whose target is such a name (`constructor`, say) is in the total and in no count by target
  (`InheritedTargetIsNotCounted`). One whose target is `__proto__` makes every later count of its status one too high
  until the process ends, and then a target named like that status cannot be counted at all: an exception
  (`ProtoRaisesLaterCounts`). Total, sums and gauge agree with the window exactly when no sample in it disturbs the
  counts (`TallyIffUndisturbed`, `ReportAgreesIffUndisturbed`).
- Keys that the collation holds equal, and that are not integers, make the signed text depend on their order
  (`OrderNeverShowsIff`). A raw text body passes for a JSON value whose stable text it is (`SameContent`).

## Model

| member | source | states |
|---|---|---|
| IdempotencyStore.PgIdempotencyStore.Exists | src/core/idempotency/stores/pg-idempotency.store.ts:9-15 | a key exists exactly when its row has not expired |
| IdempotencyStore.PgIdempotencyStore.SetIfNotExists | src/core/idempotency/stores/pg-idempotency.store.ts:17-45 | purge of stale rows and insert as one step; a store failure is answered as a duplicate and changes nothing |
| IdempotencyStore.PgIdempotencyStore.Delete | src/core/idempotency/stores/pg-idempotency.store.ts:47-51 | the row is gone, or untouched when the delete fails |
| IdempotencyStore.PurgeIsInvisible | src/core/idempotency/stores/pg-idempotency.store.ts:17-45 | purging at any earlier time never changes which keys are live |
| IdempotencyStore.PgTracksHeld | src/core/idempotency/stores/pg-idempotency.store.ts:9-51 | after every history the live rows are exactly the keys that the calls alone say are held |
| IdempotencyStore.PgAnswersAsExpected | src/core/idempotency/stores/pg-idempotency.store.ts:9-51 | every answer of the store in every history is the one of the abstract expiring set |
| IdempotencyStore.RedisIdempotencyStore.SetIfNotExists | src/core/idempotency/stores/redis-idempotency.store.ts:64-68 | `SET NX EX`: taken exactly when no unexpired key is there; a failing call throws, and nothing is written |
| IdempotencyStore.RedisTracksHeld | src/core/idempotency/stores/redis-idempotency.store.ts:64-78 | the Redis form holds the same keys in every history |
| IdempotencyStore.RedisAnswersAsPg | src/core/idempotency/stores/redis-idempotency.store.ts:64-78 | both stores answer every call alike |
| IdempotencyService.IdempotencyService.CheckAndLock | src/core/idempotency/idempotency.service.ts:26-46 | locks exactly when every candidate can be asked for and none is live, and then writes the active candidate only; throws on an unreadable candidate with no live one before it |
| IdempotencyService.IdempotencyService.Release | src/core/idempotency/idempotency.service.ts:48-51 | removes all candidates except those whose delete failed, and nothing else |
| IdempotencyService.CandidatesAreTheKeyring | src/security/encryption.service.ts:174-188 | the candidates are the lock keys under all keys of the ring, once each |
| IdempotencyService.TableTracksHeld | src/core/idempotency/idempotency.service.ts:26-51 | across any sequence of active-key switches a source has a live row under some key exactly while it is held |
| IdempotencyService.LocksSurviveKeyChanges | src/core/idempotency/idempotency.service.ts:26-51 | with a keyring that only grows or is reordered, a call locks exactly when nobody holds the source |
| IdempotencyService.LiveUnderItsKey | src/core/idempotency/idempotency.service.ts:26-51 | in every history with a growing keyring a held source has a live row under exactly the key its lock was taken under |
| IdempotencyService.LockedIffFreeOrKeyDropped | src/core/idempotency/idempotency.service.ts:26-46 | whatever part of the keyring a caller has left, it locks a source if and only if nobody holds it or the lock's key is missing |
| IdempotencyService.DroppedKeyForgetsLocks | src/core/idempotency/idempotency.service.ts:26-46 | a concrete history in which dropping a key locks a held source again |
| LockProtocol.StepKeepsInv | src/core/idempotency/idempotency.service.ts:26-51 | each store call of each worker keeps: every holder has a live row of its own, which only it removes, and all rows are of active candidates |
| LockProtocol.RunKeepsInv | src/inbound/webhooks/webhook.service.ts:46-83 | the invariant holds in every interleaving of any number of workers with any keyrings and one active key, as long as holders finish in time |
| LockProtocol.AtMostOneInside | src/inbound/webhooks/webhook.service.ts:46-83 | at most one worker at a time is inside the section for one source key, and the row is its own |
| LockProtocol.HmacKeysAreSeparate | src/security/encryption.service.ts:174-188 | workers with HMAC keys from one keyring meet the hypotheses, and two of them lock a source under the same key if and only if they have the same active key |
| LockProtocol.PlainKeysAreSeparate | src/security/encryption.service.ts:174-177 | without HMAC the hypotheses are met, so workers exclude each other whatever their active keys |
| LockProtocol.JoinedIffLate | src/inbound/webhooks/webhook.service.ts:46-83 | from any state with a worker inside that is reached in a run whose holders were all in time before, an idle worker can get inside without delay if and only if the deadline has passed |
| LockProtocol.LateHolderIsJoined | src/inbound/webhooks/webhook.service.ts:46-83 | for any candidates, an interleaving in which a holder that outlives its lock is joined by a second worker |
| LockProtocol.DifferentActiveKeysExcludeNothing | src/core/idempotency/idempotency.service.ts:26-46 | for any two workers that lock a source under different keys, an interleaving with both inside and nobody late |
| LockProtocol.ExclusionIffSameActive | src/core/idempotency/idempotency.service.ts:26-46 | in every interleaving whose holders are in time at most one worker is inside per source, if and only if all workers lock a source under the same key |
| LockLifetimes.AcceptedOnce | src/inbound/webhooks/webhook.service.ts:46-83 | in every interleaving, once a worker has been accepted for a source, none is inside for it again before the deadline |
| LockLifetimes.AcceptedUntilDeadline | src/inbound/webhooks/webhook.service.ts:46-83 | and an idle worker gets inside for it without delay if and only if the deadline has passed |
| LockLifetimes.ReleasedIsFree | src/core/idempotency/idempotency.service.ts:48-51 | a worker that fails and deletes its candidates frees the source at once: the next one gets inside at the same moment |
| LockLifetimes.AcceptedAcrossKeyChanges | src/core/idempotency/idempotency.service.ts:26-46 | also when workers lock under different keys, nobody starts a source over that one of them took while the others were idle, as long as its key is among their candidates |
| LockProtocol.TargetsShareLocksIff | src/inbound/webhooks/webhook.service.ts:46 | two different targets have events with one source key if and only if one name continues the other after a colon |
| LockProtocol.SourceKeyIsInjective | src/inbound/webhooks/webhook.service.ts:46 | otherwise equal source keys mean the same event |
| LockProtocol.ColonMergesEvents | src/inbound/webhooks/webhook.service.ts:46 | two different events with one source key |
| Retry.CalculateDelay | src/core/retry/retry.service.ts:48-53 | a jittered delay lies between half the capped delay, rounded down, and the capped delay |
| Retry.DelaysDouble | src/core/retry/retry.service.ts:48-53 | delays start at the base and double until the maximum |
| Retry.JitterReaches | src/core/retry/retry.service.ts:48-53 | jitter can give every delay from half the capped one, rounded up, to just below it |
| Retry.Execute | src/core/retry/retry.service.ts:21-46 | the result is that of the last call, all earlier ones threw, and after a throw all calls were made |
| Retry.TotalSleepIsBounded | src/core/retry/retry.service.ts:48-53 | total sleep is at most the number of delays times the maximum, and at most the base times 2^n - 1 |
| Retry.CallsAreDetermined | src/core/retry/retry.service.ts:21-46 | the number of calls is the index of the first that returns plus one, capped by the retries |
| Retry.ForTarget | src/core/retry/retry-policy.service.ts:27-73 | whatever a configuration holds, the policy has positive retries, delays and lease |
| Retry.PolicyFollowsConfiguration | src/core/retry/retry-policy.service.ts:27-73 | each setting is the configured one where that is a positive integer (a flag for jitter) and the default otherwise |
| Retry.ExecuteForTarget | src/core/retry/retry-policy.service.ts:27-44 | under every policy a target can configure, the connector is called and total sleep is bounded |
| Dlq.DlqService.Add | src/core/dlq/dlq.service.ts:29-44 | the call can throw with the row already created |
| Dlq.DlqService.Retry | src/core/dlq/dlq.service.ts:46-83 | compare-and-set claim of a row that is pending, or retrying with its lease passed; it can throw before the claim, leaving the row, or after it, leaving the row claimed |
| Dlq.DlqService.Skip | src/core/dlq/dlq.service.ts:85-91 | unconditional: the row is skipped and unlocked whoever holds it, unless the update fails |
| Dlq.DlqService.Resolve | src/core/dlq/dlq.service.ts:93-99 | unconditional: the row is resolved and unlocked whoever holds it, also when only the count after it fails |
| Dlq.DlqService.MarkRetryFailed | src/core/dlq/dlq.service.ts:101-112 | unconditional: the row is pending and unlocked, with the new error, unless the update fails |
| Dlq.DlqService.UpdateMetrics | src/core/dlq/dlq.service.ts:114-124 | the gauge shows the number of rows of every status, or is unchanged when counting fails |
| Dlq.CountsCoverQueue | src/core/dlq/dlq.service.ts:114-124 | the four gauge values add up to the size of the queue |
| DlqProtocol.RowsAreConsistent | src/core/dlq/dlq.service.ts:29-112 | in every reachable state a lock time is set exactly while retrying, and the retry count is the initial one plus the successful claims |
| DlqProtocol.ClosedForever | src/core/dlq/dlq.service.ts:46-112 | an item skipped or resolved with no outstanding claim stays so in every continuation |
| DlqProtocol.EndIsFinalIffUnclaimed | src/core/processing.service.ts:101-114 | in every reachable state a skip or resolution is final in all continuations if and only if no claim on the item is outstanding |
| DlqProtocol.SkipDuringRetryIsUndone | src/core/dlq/dlq.service.ts:85-112 | runs in which a skip during a retry, or the worker's own resolution, is undone |
| DlqProtocol.StepKeepsExclusive | src/core/dlq/dlq.service.ts:46-112 | each step keeps: a claimed item is skipped, resolved or still locked by its claim, and no two claims share an item |
| DlqProtocol.OneWorkerPerItem | src/core/processing.service.ts:101-114 | when every claim is finished within the smallest lease, no two workers process one item at once |
| DlqProtocol.JoinedIffLate | src/core/dlq/dlq.service.ts:46-83 | in runs whose claims were all in time before, a second claim of a claimed item works if and only if the item is not ended and the lease has passed since the first claim |
| DlqProtocol.LateWorkerIsJoined | src/core/dlq/dlq.service.ts:46-83 | a worker one millisecond over its lease can be joined |
| DlqProtocol.AbandonedItemIsClaimableAgain | src/core/dlq/dlq.service.ts:46-83 | an abandoned item is claimable if and only if its lease has passed |
| Processing.ProcessingService.ExecuteWithRetry | src/core/processing.service.ts:116-139 | succeeds exactly when the first call that does not throw reports success; a returned failure is not retried |
| Processing.FailureIsNoSuccess | src/core/processing.service.ts:116-139 | there is no error if and only if some allowed call returns success after only throwing ones |
| Processing.ErrorIsTheConnectors | src/core/processing.service.ts:116-139 | the error kept is that of the last throw, or the reason the connector returned |
| Processing.ProcessingService.Process | src/core/processing.service.ts:68-99 | success delivers; failure leaves exactly one new pending row with its event, target, error and retry count, or none, and is durable exactly when the whole DLQ write worked |
| Processing.ProcessingService.ProcessRetry | src/core/processing.service.ts:101-114 | done exactly on success with a working update; the row afterwards for every fate of the two updates, and no other row changes |
| Processing.RetriedRowMeans | src/core/processing.service.ts:101-114 | when the item ends resolved, when pending, and that it stays claimed exactly when no update works |
| Processing.ProcessingService.ProcessWithResult | src/core/processing.service.ts:148-208 | a read returns exactly what the connector returned, and throws on a failure that is not native |
| Webhooks.DispatcherService.Dispatch | src/outbound/dispatcher.service.ts:40-100 | what is queued, delivered, parked and thrown in both modes, with a lost status message replacing the durable error |
| Webhooks.WebhookService.ProcessWrite | src/inbound/webhooks/webhook.service.ts:42-84 | without the lock nothing changes; otherwise the whole new state, the lock staying exactly on durable acceptance or a failed delete, and unless a delete failed a lock that stays means delivered, parked or queued |
| Webhooks.WebhookService.ProcessRead | src/inbound/webhooks/webhook.service.ts:57-83 | the connector's answer and data are passed on, and the lock stays exactly when nothing is thrown or its delete failed |
| Webhooks.OnlyTheActiveKey | src/inbound/webhooks/webhook.service.ts:50-82 | of the candidates only the active one is live after locking, until its deadline, and after a release only if its delete failed |
| Webhooks.ReleasedThoughAccounted | src/outbound/dispatcher.service.ts:65-99 | exactly when an event that is delivered or parked has its lock released |
| KafkaWorker.KafkaConsumerService.EachMessage | src/kafka/kafka-consumer.service.ts:69-122 | one message delivers, parks or drops its event, or ends the retry of its item, with the exact rows that leaves; errors are swallowed |
| KafkaWorker.AsyncSystem.Run | src/outbound/dispatcher.service.ts:49-63 | for every schedule of webhooks, workers, claims, retries and skips the services end in the state of the books, and the webhooks answered as processed are exactly those accepted there |
| AsyncBooks.BooksBalance | src/kafka/kafka-consumer.service.ts:69-122 | over every schedule and pattern of failures: accepted = delivered + in DLQ + queued + lost, for each event of each target |
| AsyncBooks.LostIff | src/kafka/kafka-consumer.service.ts:98-120 | nothing is lost if and only if no worker step fails to decode its event, or fails it without a DLQ row |
| AsyncBooks.StepBalances | src/kafka/kafka-consumer.service.ts:69-122 | each step keeps the books balanced |
| AsyncBooks.ResolvedWasRedelivered | src/core/processing.service.ts:101-114 | in every schedule whose retry messages carry the event of their item, an event has no more resolved rows than deliveries on retry to its target |
| AsyncBooks.AcceptedOncePerTtl | src/inbound/webhooks/webhook.service.ts:46-55 | in every schedule with webhooks in order of time and lock keys that tell events apart, two acceptances of one event are at least an hour apart |
| AsyncBooks.LockStays | src/inbound/webhooks/webhook.service.ts:46-83 | until its deadline nothing in such a schedule removes the lock of an accepted event |
| Admin.AdminService.Retry | src/admin/admin.service.ts:84-96 | throws unless the item is claimable and its retry goes all the way, and the row it leaves in each case |
| Admin.AdminService.RetryItem | src/admin/admin.service.ts:145-177 | when a retry throws, what its row becomes, that no other row changes, and that the event and target retried are those the row was parked for |
| Admin.AdminService.ClaimAndRetry | src/admin/admin.service.ts:116-129 | the fate of one item and the row it leaves follow from its row and the effects, a throwing claim included |
| Admin.AdminService.RetryMany | src/admin/admin.service.ts:98-138 | requested = queued + skipped + errors, each number being that of the items with that fate, and every row as one round leaves it; it throws exactly when the final count fails, the rows being done |
| Admin.AdminService.ClaimsAreCounted | src/core/dlq/dlq.service.ts:62-82 | exactly the rows that were claimed gain a retry, whatever their fate |
| Admin.Limit | src/admin/admin.service.ts:179-189 | the number of rows is as asked, at most the maximum, and the default where nothing positive was asked |
| Encryption.DecryptUndoesEncrypt | src/security/encryption.service.ts:101-140 | decryption with any keyring holding the writer's key gives the value back |
| Encryption.NoEnvelopeContainsItself | src/security/encryption.service.ts:123-140 | no envelope decrypts to itself |
| Encryption.StorageRoundTrip | src/database/json.helper.ts:16-32 | a value survives storage if and only if encryption is on or it is not shaped like an envelope, on both providers |
| Encryption.StoredForm | src/database/json.helper.ts:16-32 | what is stored is an envelope under the active key exactly when encryption is on, or the value is one; it is text exactly on SQLite |
| Encryption.FreshVectorsShow | src/security/encryption.service.ts:101-121 | two writes with different vectors give different envelopes, also of equal values |
| Encryption.SealedMessages | src/security/encryption.service.ts:159-164 | with Kafka encryption on, every message is sent as an envelope under the active key, never as itself, and not at all without the key; a reader whose keyring lacks the key decodes nothing |
| Encryption.PlainMessages | src/security/encryption.service.ts:159-162 | with it off the message is sent as it is |
| Encryption.KafkaRoundTrip | src/security/encryption.service.ts:159-172 | the same for messages, whatever the reader's flag and active key |
| Encryption.ActiveKeyComesFirst | src/security/encryption.service.ts:174-188 | the candidates are an active-first permutation of the keyring |
| Encryption.LockKeyIsInjective | src/security/encryption.service.ts:184-187 | a lock key determines its encryption key and its digest |
| EncryptedDatabase.Dedupe | src/security/encryption-rotation.service.ts:243-249 | keeps every id once, the first in front, and adds none |
| EncryptedDatabase.WrittenUnderActiveKey | src/database/json.helper.ts:16-32 | what is written is an envelope under the active key and reads back |
| EncryptedDatabase.ReencryptKeepsMeaning | src/security/encryption-rotation.service.ts:135-191 | a rewritten row is wholly under the active key, in the form of its database, and decrypts to what it did |
| RotationProtocol.StepKeepsInv | src/security/encryption-rotation.service.ts:26-58 | startup, writing, rotation steps, failure, crash and completion all keep the invariant; of a normal worker's active key the startup guard makes sure, of a worker in rotation mode it is asked |
| RotationProtocol.NormalStartIff | src/database/prisma.service.ts:69-85 | a worker outside rotation mode may start on a completed database if and only if it holds its active key and the database stays under one key whatever it writes |
| RotationProtocol.RotationStartIff | src/database/prisma.service.ts:69-85 | a process in rotation mode may start on an encrypted database if and only if it holds its active key and reads whatever the database's workers write |
| RotationProtocol.PlainStartIff | src/database/prisma.service.ts:37-60 | a process without encryption starts exactly on a database that never had any |
| RotationProtocol.FirstStartIff | src/database/prisma.service.ts:37-67 | encryption is switched on exactly when there are no rows and no locks, and the state then records the active key |
| RotationProtocol.EveryRowReadsAsWritten | src/security/encryption-rotation.service.ts:42-58 | after any run, however rotations ended, every row decrypts to what was last written to it |
| RotationProtocol.CompletedMeansOneKey | src/security/encryption-rotation.service.ts:224-241 | in every reachable state `completed` means that every stored envelope is under the active key, if workers in rotation mode have it |
| RotationProtocol.AcceptedStartupReadsAll | src/database/prisma.service.ts:37-86 | in such a state that is `completed`, every encrypted startup the guard accepts, with whatever active key, reads every row |
| RotationProtocol.WritesKeepOneKeyIff | src/database/prisma.service.ts:69-85 | of the encrypted workers the guard accepts on a completed database, exactly those with its active key keep it under one key whatever they write |
| RotationProtocol.RotationModeWorkerLocksOut | src/database/prisma.service.ts:78-85 | a worker in rotation mode with another key is accepted and writes; a startup accepted afterwards cannot read the row |
| RotationProtocol.ReadsAllIffHoldsTheirKeys | src/security/encryption.service.ts:123-140 | in every reachable state a keyring reads a row if and only if it holds the keys of its columns |
| RotationProtocol.FormerKeysAreListed | src/security/encryption-rotation.service.ts:206-249 | every key rotated away from stays in the previous keys, and none is listed twice |
| RotationProtocol.RowIsNeverStuck | src/security/encryption-rotation.service.ts:135-191 | a re-run whose keyring holds the keys of a row can rewrite it |
| RotationProtocol.FinishedRotationServes | src/security/encryption-rotation.service.ts:224-241 | a finished rotation leaves `completed` under the new key with the old one first among the previous; a normal process with its configuration starts and reads every row, and the same rotation again does nothing |
| RotationProtocol.RotationIsQuiet | src/security/encryption-rotation.service.ts:60-85 | a rotation begins exactly on an encrypted database with another active key, no open item, no lock and no lag |
| RotationProtocol.RollbackDoesNothing | src/security/encryption-rotation.service.ts:34-37 | a run with the old active key after a failed rotation changes nothing |
| RotationProtocol.RolledBackIffNothingWasRewritten | src/security/encryption-rotation.service.ts:34-58 | after an unfinished rotation and a run with the old key, all rows are under that key if and only if none had been rewritten and the rest was |
| RotationProtocol.FailedRotationLocksOut | src/database/prisma.service.ts:69-85 | a run after which the guard accepts a keyring that cannot read a row |
| EncryptionRotation.PrismaService.ValidateEncryptionState | src/database/prisma.service.ts:37-110 | the process starts exactly on the database `Startup` gives, unless the state row or the counts cannot be read or the insert fails |
| EncryptionRotation.PrismaService.EnsureStrictlyEmpty | src/database/prisma.service.ts:112-134 | empty means no row in any table and no live lock |
| EncryptionRotation.EncryptionRotationService.RotateToActiveKey | src/security/encryption-rotation.service.ts:26-58 | refused or current changes nothing; finished has rewritten every row and recorded the new active key as completed; thrown, also by a failing read, has rewritten some, kept the active key and marked the state failed if it could |
| EncryptionRotation.RotateServeRotate | src/security/encryption-rotation.service.ts:26-58 | after a finished rotation a normal process with the same configuration starts, and a second rotation finds the key active |
| EncryptionRotation.EncryptionRotationService.AssertNoActiveProcessing | src/security/encryption-rotation.service.ts:60-85 | passes exactly when no item is open, no lock is live and Kafka is drained |
| EncryptionRotation.EncryptionRotationService.RotateTable | src/security/encryption-rotation.service.ts:135-191 | the loop of each table: all its rows rewritten once, or some up to the first exception |
| EncryptionRotation.PartlyKeepsMeaning | src/security/encryption-rotation.service.ts:42-58 | however far a rotation got, no row says anything else |
| EncryptionRotation.FullyIsUnderKey | src/security/encryption-rotation.service.ts:42-58 | a finished rotation leaves every row under the new key, saying what it said |
| EncryptionRotation.StuckIffUnreadable | src/security/encryption-rotation.service.ts:135-191 | without database faults a rotation throws exactly over a column its keyring cannot read |
| EncryptionRotation.OutcomeIsAPath | src/security/encryption-rotation.service.ts:26-58 | what the command leaves behind is reached by steps of the rotation protocol |
| EncryptionRotation.KafkaLag | src/security/encryption-rotation.service.ts:87-133 | the lag is zero exactly when the check is off or every partition of both topics is committed to its end |
| SecretRedaction.MergeConfigPreservingSecrets | src/security/secret-redaction.ts:38-72 | the loop computes the recursive merge, in any order of keys |
| SecretKeys.IsSecretKeyIff | src/security/secret-redaction.ts:4-19 | a key is secret if and only if it is a prefix, empty or ending in `_`, `-` or `.`, and a secret word in any case |
| SecretKeys.WordsAreSpellings | src/security/secret-redaction.ts:4-5 | the secret words are exactly the spellings of their parts, with nothing, `_` or `-` in between |
| SecretKeys.PrefixKeepsSecret | src/security/secret-redaction.ts:4-19 | a prefix with a separator before a secret key keeps it secret |
| SecretKeys.CaseNeverMatters | src/security/secret-redaction.ts:4-19 | keys that differ in case only are both secret or neither is |
| SecretKeys.PasswordNames | src/security/secret-redaction.ts:4-19 | a password in any case is secret by itself and behind any prefix with a separator |
| SecretRedaction.RedactMasksExactly | src/security/secret-redaction.ts:21-36 | the redacted value is masked everywhere, and equals the original if and only if that was |
| ConfigPaths.WhatAViewShows | src/security/secret-redaction.ts:21-36 | at every path a view has the mask under a secret key, nothing behind one, and otherwise what was there |
| ConfigPaths.WhatAnEditDoes | src/security/secret-redaction.ts:38-72 | at every chain of keys a merge keeps what the edit does not mention and sets what it sets, except that a placeholder keeps the secret that is there |
| ConfigPaths.PlaceholderIff | src/security/secret-redaction.ts:7-11 | a placeholder is one of three texts with any white space around it |
| SecretRedaction.RedactIsHomomorphism | src/security/secret-redaction.ts:21-72 | redacting a merge is merging the redacted sides |
| SecretRedaction.MergeIsIdempotent | src/security/secret-redaction.ts:38-72 | merging the same edit again changes nothing |
| SecretRedaction.MergeKeys | src/security/secret-redaction.ts:38-72 | at every merged level the keys are exactly the union |
| SecretRedaction.SavingUneditedViewRestores | src/security/secret-redaction.ts:21-72 | merging a configuration with its own view restores it if and only if every array reached through non-secret keys is masked |
| SecretRedaction.SecretInArrayIsLost | src/security/secret-redaction.ts:38-72 | a concrete secret in an array that becomes its mask |
| TargetSystems.TargetSystemService.Create | src/admin/target-system.service.ts:70-86 | new row or unchanged table for each answer; names stay unique |
| TargetSystems.TargetSystemService.Update | src/admin/target-system.service.ts:88-123 | each given field is set and each other kept, with the merged configuration; or a conflict, a missing row or an exception; and no other row changes |
| TargetSystems.TakenIff | src/admin/target-system.service.ts:88-123 | a name is refused exactly when writing it would give two rows one name |
| TargetSystems.TargetSystemService.Delete | src/admin/target-system.service.ts:125-132 | unless the delete fails, the row is gone even when its configuration cannot be read for the answer |
| TargetSystems.AnswersAreMasked | src/admin/target-system.service.ts:167-176 | no answer discloses a secret at any depth, under whatever prefix and case its name is written |
| TargetSystems.AnswersShowTheRest | src/admin/target-system.service.ts:167-176 | an answer shows every field of the row, and every value of the configuration that no secret key leads to |
| TargetSystems.SavingAnUneditedSystemKeepsIt | src/admin/target-system.service.ts:88-123 | through storage and encryption, saving what was shown keeps the configuration if and only if its arrays disclose nothing and storage can hold it |
| ConnectorRouting.AllowlistIff | src/connectors/connector.registry.ts:214-225 | exactly the trimmed names between the commas of the list are allowed |
| ConnectorRouting.WithoutAllowlist | src/connectors/connector.registry.ts:214-225 | without a list production has no connector by type, and elsewhere there is only the fake one |
| ConnectorRouting.DisabledIsNotRouted | src/connectors/connector.registry.ts:149-175 | a system that is switched off is not served, whatever it was before |
| ConnectorRouting.EnabledIsRouted | src/connectors/connector.registry.ts:149-175 | one that is on is served under its name, with its type and configuration |
| ConnectorRegistry.ConnectorRegistry.Reload | src/connectors/connector.registry.ts:138-147 | a reload in flight is joined, another one begins: a step of the registry protocol or none |
| ConnectorRegistry.ConnectorRegistry.LoadRows | src/connectors/connector.registry.ts:149-175 | the protocol step of the row read: the connectors route every name as the table does, in any row order, or stay when something cannot be read |
| ConnectorRegistry.ConnectorRegistry.RecordVersion | src/connectors/connector.registry.ts:176 | after the version read the connectors are current if and only if the rows read before route as the table does now |
| ConnectorRegistry.ConnectorRegistry.ReloadIfChanged | src/connectors/connector.registry.ts:243-253 | a reload starts exactly on a different version with none in flight; on the same version the connectors are current if and only if the rows last read route as the table does |
| RegistryProtocol.EqualVersionsEqualTables | src/connectors/connector.registry.ts:255-263 | along any run with increasing stamps, equal count and latest stamp mean identical tables |
| RegistryProtocol.UnchangedVersionMeansCurrent | src/connectors/connector.registry.ts:149-177 | on an unchanged version the connectors are current if and only if the rows read by the last reload route as those at the version read |
| RegistryProtocol.QuietReloadStaysDetectable | src/connectors/connector.registry.ts:149-177 | with no write between the two reads, an unchanged version means the connectors are those of the database |
| RegistryProtocol.WriteBetweenReadsIsMissed | src/connectors/connector.registry.ts:161-176 | a run in which a write between the reads is never noticed |
| RegistryProtocol.UpdateIsMissedIff | src/connectors/connector.registry.ts:255-263 | an update leaves the version alone if and only if its stamp is the latest, or is earlier while another row has the latest |
| RegistryProtocol.InsertsAndDeletesShow | src/connectors/connector.registry.ts:255-263 | an insert or a delete always changes the version |
| RegistryProtocol.SameMillisecondIsMissed | src/connectors/connector.registry.ts:255-263 | so an update within the millisecond of the row's own stamp leaves the version alone |
| StableStringify.PutIsUnique | src/security/integration-auth.service.ts:171-187 | printed trees are uniquely readable: equal texts with any continuation come from equal trees |
| JsonReader.StableTextReadsBack | src/security/integration-auth.service.ts:171-187 | the stable text is a JSON text, and a reader after section 7 of RFC 8259 reads it back as the body up to key order |
| StableStringify.StableTextDeterminesValue | src/security/integration-auth.service.ts:171-187 | equal texts mean equal bodies up to key order, under any collation |
| StableStringify.StableStringifyIsCanonical | src/security/integration-auth.service.ts:171-187 | two bodies print equally if and only if they are equal up to key order at every depth |
| CollationTies.ArrivingTextIsCanonical | src/security/integration-auth.service.ts:171-187 | two bodies that can arrive print equally if and only if they are equal up to key order, under that weaker condition |
| CollationTies.TiedTreeHasTwin | src/security/integration-auth.service.ts:179-181 | a body with keys that the collation holds equal and that can be enumerated in either order has such a reordering, with another text |
| CollationTies.OrderNeverShowsIff | src/security/integration-auth.service.ts:171-187 | among the bodies that can arrive, key order never shows if and only if the collation tells apart the keys that can come in either order |
| IntegrationAuth.DigestSurvivesNormalizing | src/security/integration-auth.service.ts:136-149 | a digest is read back from the header with or without its prefix |
| IntegrationAuth.SameTextIffSameContent | src/security/integration-auth.service.ts:151-187 | the signed texts of any two bodies are equal if and only if their contents are: equal values up to key order, equal words, or words that are a value's stable text |
| IntegrationAuth.AcceptedIffSameBody | src/security/integration-auth.service.ts:33-114 | a request signed in time for any body is accepted if and only if the body that arrives has the same content |
| IntegrationAuth.AcceptedIffSigned | src/security/integration-auth.service.ts:33-114 | a request with the signature made for some method, path, timestamp, body and secret is accepted if and only if all five are its own and the stamp, in seconds or milliseconds, is in time |
| IntegrationAuth.StaleIsRefused | src/security/integration-auth.service.ts:62-71 | a request whose stamp is outside the skew is refused whatever its signature |
| IntegrationAuth.VerifyIff | src/security/integration-auth.service.ts:33-84 | for every request and secret: 503 without a secret, and 200 exactly when the stamp is in time and the header carries what passes for its own signature |
| IntegrationAuth.NormalizeIff | src/security/integration-auth.service.ts:144-149 | a header carries a digest if and only if it is the digest in any case, with or without the prefix in any case, between white space |
| IntegrationAuth.SignedText | src/security/integration-auth.service.ts:103-114 | the four lines that are signed |
| IntegrationAuth.AbsentBodies | src/security/integration-auth.service.ts:151-169 | a request without a body, or with a null one, is signed like one with an empty text |
| IntegrationAuth.PathIsBeforeQuery | src/security/integration-auth.service.ts:131-134 | the path is what stands before the query, or `/` |
| IpUtils.AndHighBits | src/security/ip-utils.ts:34-47 | masking with high ones clears exactly the low bits |
| IpUtils.SameBlockIsDivision | src/security/ip-utils.ts:34-47 | the shift-and-mask test is equality of the quotients by 2^(32 - prefix), for every prefix from 0 to 32 |
| IpUtils.ShorterPrefixMatches | src/security/ip-utils.ts:34-47 | a match on a prefix is a match on every shorter one |
| IpUtils.Ipv4ToIntIsInjective | src/security/ip-utils.ts:17-32 | addresses have numbers below 2^32, and different addresses different ones |
| DottedDecimal.AddressIff | src/security/ip-utils.ts:17-32 | a text is the address with a number if and only if it is that number in dotted decimal without leading zeros |
| IpUtils.CidrIsBlockMembership | src/security/ip-utils.ts:34-47 | on texts: a match means a valid prefix and the same block, and conversely |
| DottedDecimal.BlockOfAddresses | src/security/ip-utils.ts:34-47 | an address lies in a written block if and only if the prefix is a number from 0 to 32 and so many leading bits agree |
| IpUtils.AllowedIffCovered | src/security/ip-utils.ts:49-68 | an address is allowed if and only if an entry lists it or a block around it, mapped into IPv6 or not |
| DottedDecimal.AllowedMeans | src/security/ip-utils.ts:49-68 | the same with white space and mapping written out on both sides |
| Metrics.MetricsService.RecordEvent | src/metrics/metrics.service.ts:92-100 | the window remains the recent part of all samples ever recorded, also when counting throws; the gauge shows it if and only if nothing disturbs its counts |
| Metrics.MetricsService.ProcessedLast5Minutes | src/metrics/metrics.service.ts:102-121 | the total counts the samples of the last five minutes; it is the sum by status and the sum by target if and only if nothing disturbs the counts, and then every count is exact |
| Metrics.MetricsService.RefreshProcessedWindow | src/metrics/metrics.service.ts:123-140 | the gauge shows exactly the counts of the window if and only if no sample of it has an inherited target, a leaked status, or a leaked status as its target; what leaks stays |
| ObjectCounts.TallyOf | src/metrics/metrics.service.ts:142-150 | the loop over plain objects with shared ancestors counts every pair as meant if and only if nothing disturbs it |
| ObjectCounts.TallyIffUndisturbed | src/metrics/metrics.service.ts:142-150 | the nested record has the count of every pair if and only if no target is inherited and no leak touches a status or a target |
| ObjectCounts.ReportAgreesIffUndisturbed | src/metrics/metrics.service.ts:102-121 | total, sum by status and sum by target agree if and only if nothing disturbs the counts, and then each is exact |
| ObjectCounts.CountsCarryLeaks | src/metrics/metrics.service.ts:142-150 | every count is too high by at least what had leaked under its status, and by exactly that without a sample of `__proto__` |
| ObjectCounts.LaterWindow | src/metrics/metrics.service.ts:102-150 | a window without inherited targets can be counted if and only if no target is the name of a leaked status, and then every count carries the leak |
| ObjectCounts.InheritedTargetIsNotCounted | src/metrics/metrics.service.ts:142-150 | a sample of an inherited target such as `constructor` is in no count by target |
| ObjectCounts.ProtoRaisesLaterCounts | src/metrics/metrics.service.ts:102-150 | after one sample of `__proto__` every later count of its status is one too high, or counting throws |
| Metrics.UndisturbedUnlessInherited | src/metrics/metrics.service.ts:102-150 | while `__proto__` has never been recorded, counts are right exactly when no sample in the window has an inherited target |
| Metrics.ShiftingKeepsRecent | src/metrics/metrics.service.ts:123-127 | shifting from the front loses no recent sample when times are in order |
| Metrics.RecentIff | src/metrics/metrics.service.ts:123-127 | the window has exactly the samples at most 300,000 milliseconds old |
| Metrics.ShiftingIsExactWhen | src/metrics/metrics.service.ts:123-127 | in general it is exact if and only if no stale sample stands behind a recent one |

## Left out

- Controllers, modules, user interface, connector implementations, TLS, PAM and SSO: wiring and services that cannot be seen; a connector is what each of its calls does.
- Key parsing, base64, the keyring cache and its loading: a keyring is a list of distinct ids with material.
- Crashes while a webhook is handled, and read-committed anomalies inside `setIfNotExists`: each store call is one step.
- IdempotencyService.IdempotencyService.CheckAndLock: the choice between the two stores is not modelled; the class uses the PostgreSQL one, and `RedisAnswersAsPg` carries its answers over.
- IdempotencyService.LocksSurviveKeyChanges: calls do not overlap and do not fail; overlapping and failing calls are the subject of `LockProtocol`.
- Webhooks.WebhookService.ProcessRead: which of a connector's calls serves the read is a parameter.
- Retry.CalculateDelay: jitter is computed over the reals; rounding of floating-point numbers is not modelled.
- KafkaWorker.AsyncSystem.Run: one topic of events in order; partitions, consumer groups and redelivery by Kafka are not modelled.
- Processing.ProcessingService.Process: the logger is not part of it, error texts that name a target or come from the database are fixed texts, and metrics calls are assumed not to throw: they do only as `ObjectCounts.LaterWindow` says, for a target named `success` or `failed` after a sample of `__proto__`.
- Metrics.MetricsService.RefreshProcessedWindow: what a property leaked to `Object.prototype` does outside this service and inside the Prometheus client is not modelled.
- Dlq.DlqService.Add: the encrypted payload of an item is not part of its row here; `RotationProtocol` covers it.
- RotationProtocol.StepKeepsInv: as the documentation demands, no worker runs beside a rotation or beside the first encrypted startup, and a worker in rotation mode has the active key of the database (`WritesKeepOneKeyIff` shows that this is needed); rows are rewritten in any order.
- EncryptionRotation.KafkaLag: an exception of the Kafka client is `None` for the caller, and disconnecting is not modelled.
- TargetSystems.TargetSystemService.Update: a stored configuration that decrypts to neither an object nor null reads as an empty object; the code never writes one.
- ConnectorRegistry.ConnectorRegistry.LoadRows: a proxy is its type, name and configuration; merging the configuration into each payload is not modelled.
- RegistryProtocol.EqualVersionsEqualTables: the two queries of the version are one step, and `updatedAt` grows strictly; `UpdateIsMissedIff` shows why.
- StableStringify.StableStringifyIsCanonical: strings are UTF-16 code units without lone surrogates, and a number is the text ECMAScript prints for it.
- SecretRedaction.MergeConfigPreservingSecrets: inherited properties and the key `__proto__` are not modelled.
- IpUtils.CidrIsBlockMembership: `Number(prefix)` is a parameter; `isPrivateOrLocalAddress` is left out, being one range test after another.
- IntegrationAuth.AcceptedIffSameBody: comparison in constant time is equality.
- IntegrationAuth.AcceptedIffSigned: method, URL and timestamp of the request that arrives are free of line feeds, which no request line or header field can hold (sections 3 and 5 of RFC 9112); `LineFeedsMergeMessages` shows what they would do. Which paths require a signature is one test of prefixes and left out.
- Admin.AdminService.RetryMany: the query that selects the ids is a parameter, and error texts are reduced to the ids.
- Sessions, role checks, the audit interceptor and health checks: mostly one rule each, or writes whose failure is ignored.
