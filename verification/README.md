# Control gateway: delivery, approval, findings and time

This project models the stateful core of the out-of-band control gateway and
proves what it keeps over whole runs.

* **Command inbox** (`Inbox`, `InboxStore`, `InboxProtocol` and the modules that
  build on them). The table is a map from the `sequence` column to the row.
  `record` is a session that moves through its SQL statements one step at a time:
  look up, take the advisory lock, count the scope, count the table, insert, commit.
  Steps of any number of other connections may fall between any two of them.
  `claim`, `acknowledge`, `cancel` and `maintain` are single steps against the
  committed rows. The batched cursor loop of `claim` is kept as a loop and proved to
  refine "the first `limit` claimable authorised rows". `InboxPolls` splits `claim`
  into its locking reads and its update, lets polls overlap, and proves that every such
  run is one with single-step claims.
* **Two-operator approval** (`ApprovalGate`, `Fingerprint`, `ForceStop`, `Bytes`). The gate is a
  class. Its runs are traces of calls, answers and tables. The canonical fingerprint
  is a recursive length-prefixed encoding, compared with an order-free meaning of the
  parameter tree.
* **Finding store** (`Findings`, `FindingModel`, `FindingStore`, `FindingHistory`,
  `FindingAppends`, `FindingMoves`, `FindingScopes`, `FindingReplay`,
  `FindingJournal`). A vector, three redundant indexes, two quotas and a status
  log. `FindingModel` is the store as a value; `FindingStore` is the object, whose invariant is that its calls can lead to its
  contents.
* **Limiter, clock and fanout worker** (`Limiter`, `Clock`, `Fanout`).
* **Envelope recovery and JSON budget check** (`Envelope`, `JsonBounds`).

Inputs from outside are parameters: every clock reading, the publisher and the outbox
failures seen by one fanout tick, the rows other transactions hold locked during a
claim, the verdict of the ingest validator, the credential's scope check, the wall and
monotonic readings of the clock source. Runs start from an empty table, store or map.

Hashes are never assumed injective on all inputs. The lock hash of a scope and the
finding hash are arbitrary functions; the fingerprint result assumes no collision on
the two requests compared. Only `command_hash` is taken as collision free: a row is
compared by its semantic record.

## Where the code is narrower or wider than its words

* An acknowledgement with attempt 0 reaches cancelled and never-delivered rows
  (apps/control-plane-api/src/inbox_postgres.rs:379-400). The service in front refuses
  attempt 0 (apps/control-plane-api/src/service/poll.rs:149).
  `CancelledIsAcknowledgedOnlyAtZero` gives the exact condition.
* A row acknowledged without a delivery has no `last_delivered_millis`, so the
  retention sweep never retires it. `SweepWaitsOutTheWindow` states the exact condition.
* The fanout worker looks only at the outer error of its settle call
  (apps/control-plane-api/src/replay.rs:216-236): an error the outbox reports from
  inside the lock counts as settled. The model does the same.
* An acknowledged command that was never delivered can still be cancelled, and then its
  report changes from one terminal status to the other, although both are called
  terminal (apps/control-plane-api/src/inbox.rs:338-347).
  `StatusMovesForwardExactlyWhen` gives the exact condition.
* A resubmission of a stored command is not always answered from its row. A call that
  looked its key up before another connection stored it goes on to the two counts
  (apps/control-plane-api/src/inbox_postgres.rs:134-170), and there an identical command
  can be refused for capacity. `LateResubmission` gives the exact condition and
  `IdenticalRecordIsRefused` a run.
* A finding whose workspace and namespace together exceed 255 bytes can be stored but
  never change status. `CanMoveExactlyWhen` gives the exact condition and
  `LongScopeIsStoredForGood` shows that such findings are stored.
* Once a row has failed eight times and its quarantine failed too, it gets no new backoff
  and is tried again on every tick. `TriedExactly` says when a row is tried.
* A rate-limit window of zero admits every call. `AtMostTwiceTheLimit` and
  `NoWindowNoLimit` split the configurations exactly. Startup refuses such a window
  (apps/control-plane-api/src/startup/env/limits.rs:26-32 allows 1 to 3600 seconds); it can
  only be set through `with_admission_limits`.
* A plain `stop` whose own reason is the reserved marker, or starts with the reserved
  prefix, is recovered as a `force_stop`. One operator can issue a `stop`, while a
  `force_stop` is meant to need two, so the recovered command has not passed the approval
  gate. The control-event rules accept such reasons.
  `RecoveryYields` states the exact result, `RecoveryIsExact` the exact condition, and
  `MarkedStopBecomesForceStop` an input.
* The global inbox ceiling is advisory. `GlobalCeilingBound` gives the real bound and
  `CeilingIsReached` shows that it is reached.

## Model

| member | source | states |
|---|---|---|
| `InboxQuota.ScopeQuotaHolds` | apps/control-plane-api/src/inbox_postgres.rs:67-220 | in every interleaving of any number of connections, with sweeps at any time and any lock hash, no scope ever holds more committed rows than its quota |
| `InboxQuota.StepKeepsGood` | apps/control-plane-api/src/inbox_postgres.rs:67-220 | every single step keeps sequences and keys unique, advisory locks exclusive, room for every session past its count, and every scope within quota |
| `InboxQuota.EveryRunIsGood` | apps/control-plane-api/src/inbox_postgres.rs:67-220 | that invariant holds at the end of every run that starts from it |
| `InboxQuota.OthersAreElsewhere` | apps/control-plane-api/src/inbox_postgres.rs:103-132 | two sessions inside the lock never work on the same scope or the same key, even with colliding lock hashes |
| `InboxQuota.GlobalCeilingBound` | apps/control-plane-api/src/inbox_postgres.rs:149-219 | with K connections the committed row count never exceeds capacity - 1 + K |
| `InboxTightness.CeilingIsReached` | apps/control-plane-api/src/inbox_postgres.rs:149-219 | the bound is tight from the empty table: given capacity - 1 + K commands that fit their scopes, the last K under different lock keys, some interleaving of K connections stores them all |
| `InboxCeiling.OvershootFrom` | apps/control-plane-api/src/inbox_postgres.rs:149-219 | from any table one short of capacity, K free connections on scopes with room and different lock keys can end at capacity - 1 + K rows |
| `InboxProtocol.RecordStepMoves` | apps/control-plane-api/src/inbox_postgres.rs:67-220 | every statement of a record changes one session and at most one committed row, in one of the listed ways |
| `InboxProtocol.MoveKeepsLockExclusive` | apps/control-plane-api/src/inbox_postgres.rs:103-132 | no step lets two sessions hold the advisory lock of one key |
| `InboxProtocol.TableStepsKeepCommands` | apps/control-plane-api/src/inbox_postgres.rs:222-531 | claim, acknowledge, cancel and maintain add no row and change no stored command |
| `InboxSequential.UndisturbedRecord` | apps/control-plane-api/src/inbox_postgres.rs:67-220 | a record whose statements nothing interleaves with gives the answer and the rows of the one-piece form, for every table and command |
| `InboxStore.CommandInbox.Connect` | apps/control-plane-api/src/inbox_postgres.rs:35-63 | capacities are accepted exactly when 0 < quota <= capacity <= the maximum |
| `InboxStore.CommandInbox.constructor` | apps/control-plane-api/src/inbox_postgres.rs:35-63 | a new inbox is empty and numbers rows from 1 |
| `InboxStore.CommandInbox.Record` | apps/control-plane-api/src/inbox_postgres.rs:67-220 | on Recorded exactly one row is added and it holds every submitted field, with no delivery, acknowledgement or cancellation; AlreadyRecorded exactly when this very command is stored; nothing changes otherwise |
| `Inbox.RecordAnswersExactly` | apps/control-plane-api/src/inbox_postgres.rs:67-220 | each of the five answers of an undisturbed record has its exact condition on the table: grammar, the name stored, the same ten fields stored, room in scope and table |
| `Inbox.RecordableExactly` | apps/control-plane-api/src/inbox.rs:551-567 | the recording grammar with its seven actions and its length bounds |
| `Common.IdentifierExactly` | apps/control-plane-api/src/inbox.rs:582-589 | an identifier is 1 to 256 allowed characters with no two dots in a row |
| `InboxIdentity.RowIsWhatWasSubmitted` | apps/control-plane-api/src/inbox_postgres.rs:172-219 | in every run, every stored row agrees in all ten fields with the command submitted by the call that committed it |
| `InboxIdentity.CallKeepsItsCommand` | apps/control-plane-api/src/inbox_postgres.rs:67-220 | in every run, a connection inside a call works on the command that call began with |
| `InboxStore.CommandInbox.Claim` | apps/control-plane-api/src/inbox_postgres.rs:222-339 | delivers exactly the first claimable authorised rows: one more attempt and the time stamp on those and nothing else; the answer holds each stored command in every field, numbered one more than its earlier deliveries; nothing changes on an error |
| `InboxClaims.ClaimedExactly` | apps/control-plane-api/src/inbox_postgres.rs:244-300 | in every run, a poll is handed a command if and only if agent and scope match, it is not locked, its history has no acknowledgement and no cancellation, fewer than max_attempts deliveries, all at least redelivery_after ago, and fewer than `limit` such commands stand before it |
| `InboxClaims.HandedOutAsStored` | apps/control-plane-api/src/inbox_postgres.rs:289-336 | in every run, what the agent gets is the stored command in every field with the attempt number one more than the deliveries in its history |
| `InboxClaims.StatusReportedExactly` | apps/control-plane-api/src/inbox.rs:355-375 | in every run, each of the five statuses is reported exactly when the history says so: no delivery, some, max_attempts of them, acknowledged, cancelled |
| `InboxStore.SelectForClaim` | apps/control-plane-api/src/inbox_postgres.rs:233-287 | the batched cursor scan terminates and selects, for every batch size, exactly what the one-pass form selects |
| `InboxStore.TakeAuthorised` | apps/control-plane-api/src/inbox_postgres.rs:262-287 | one batch adds its authorised rows in order and stops early only when the selection is full |
| `InboxStore.CheckRecordable` | apps/control-plane-api/src/inbox_postgres.rs:327-333 | a claim goes through only if every handed-out command passes the grammar |
| `InboxStore.ScanResumes` | apps/control-plane-api/src/inbox_postgres.rs:237-287 | restarting the scan at its own k-th row continues right behind it, no repeat and no gap |
| `InboxStore.ScanIsCompleteAndAscending` | apps/control-plane-api/src/inbox_postgres.rs:244-262 | the scan is in strictly ascending sequence order and misses no claimable row |
| `InboxStore.CommandInbox.Acknowledge` | apps/control-plane-api/src/inbox_postgres.rs:371-421 | which rows an acknowledgement settles and what each of the three answers means |
| `InboxStore.CommandInbox.Status` | apps/control-plane-api/src/inbox_postgres.rs:423-445 | the reported status and attempt count are those of the row with this key, and None exactly when there is none |
| `InboxStore.CommandInbox.Cancel` | apps/control-plane-api/src/inbox_postgres.rs:461-503 | only a never-delivered row is cancelled, and what each refusal means |
| `InboxStore.CommandInbox.Maintain` | apps/control-plane-api/src/inbox_postgres.rs:505-531 | surviving rows are untouched and no removed row was claimable for any poll under the same attempt limit |
| `InboxDelivery.DeliverySafety` | apps/control-plane-api/src/inbox_postgres.rs:244-300 | over every run and row: at most max_attempts deliveries, each at least redelivery_after behind every earlier one, none after an acknowledgement or cancellation; a cancelled row was never delivered and acknowledged only for attempt 0; the stored columns agree with the history |
| `InboxDelivery.HandedOutExactly` | apps/control-plane-api/src/inbox_postgres.rs:289-336 | in every reachable state a claim delivers exactly the selected rows |
| `InboxDelivery.ClaimNeverAborts` | apps/control-plane-api/src/inbox_postgres.rs:327-336 | with stored rows that were recordable, the grammar check on the way out never fails |
| `InboxDelivery.EveryRunIsRecordable` | apps/control-plane-api/src/inbox.rs:551-567 | every stored command of every run passes the recording grammar and carries no attempt count |
| `InboxDelivery.AcknowledgedExactly` | apps/control-plane-api/src/inbox_postgres.rs:379-400 | over every run, an acknowledgement takes effect exactly on the named row of the caller's own agent, once, for no more attempts than were made |
| `InboxDelivery.CancelledExactly` | apps/control-plane-api/src/inbox_postgres.rs:467-502 | over every run, a cancellation takes effect exactly on a row that was never handed out and not cancelled before |
| `InboxDelivery.CancelledIsAcknowledgedOnlyAtZero` | apps/control-plane-api/src/inbox_postgres.rs:379-400 | a cancelled row is still acknowledged exactly when the acknowledgement names attempt 0 |
| `InboxDelivery.SweepWaitsOutTheWindow` | apps/control-plane-api/src/inbox_postgres.rs:505-531 | over every run, a row is retired exactly when its cancellation is old enough, or it was delivered, is settled, and every delivery is old enough |
| `InboxDelivery.MaintainKeepsClaimable` | apps/control-plane-api/src/inbox_postgres.rs:505-531 | the sweep never removes or changes a row that is still claimable |
| `InboxStatus.StatusMovesForwardExactlyWhen` | apps/control-plane-api/src/inbox.rs:338-375 | between any two points of a run at which a row is stored it is the same command, and its reported status has moved forward with terminal statuses unchanged, if and only if it was not acknowledged without a delivery and cancelled in between |
| `InboxStatus.StatusOnlyMovesForward` | apps/control-plane-api/src/service/poll.rs:149 | when every acknowledgement names a real attempt, as the service demands, the reported status only moves forward and Acknowledged and Cancelled never change |
| `InboxStatus.AcknowledgedTurnsCancelled` | apps/control-plane-api/src/inbox_postgres.rs:379-502 | the exception happens: after an acknowledgement of attempt 0, a cancellation turns a reported Acknowledged into Cancelled |
| `InboxResubmission.ResubmissionIsIdempotent` | apps/control-plane-api/src/inbox_postgres.rs:79-101 | in every run, a call that begins while its workspace, namespace and id are stored changes no row and is answered AlreadyRecorded if and only if all ten fields agree with the row, a conflict otherwise, whatever happens afterwards |
| `InboxResubmission.LateResubmission` | apps/control-plane-api/src/inbox_postgres.rs:103-219 | in every run, a call whose key came to be stored after its lookup, and stays stored, never inserts; unless it is aborted it is answered from the row if and only if it found room at its scope count and at its global count, and for capacity otherwise |
| `InboxResubmission.IdenticalRecordIsRefused` | apps/control-plane-api/src/inbox_postgres.rs:134-147 | the refusal happens: with a quota of one, two connections record the same command and the slower one is answered Capacity while the row stores exactly its command |
| `InboxDelivery.StoredNeverInFlight` | apps/control-plane-api/src/inbox_postgres.rs:172-219 | a sequence number once stored is never drawn again |
| `InboxStarvation.NoStarvation` | apps/control-plane-api/src/inbox_postgres.rs:237-300 | a never-delivered command with E earlier rows, committed or in flight, for its agent is delivered within E * max_attempts / limit + 1 polls of its authorised agent, whatever else happens in between, unless it is acknowledged or cancelled |
| `InboxStarvation.MissesArePaidFor` | apps/control-plane-api/src/inbox_postgres.rs:237-300 | every poll that misses the row uses up `limit` of the attempts left on strictly earlier rows, and no other step gives any back |
| `InboxStarvation.ClaimTakesTheFirst` | apps/control-plane-api/src/inbox_postgres.rs:237-287 | a claimable authorised row is left out only when `limit` earlier rows filled the poll |
| `InboxStarvation.ClaimIsInOrder` | apps/control-plane-api/src/inbox_postgres.rs:303-336 | a claim hands out distinct rows, oldest first |
| `InboxPolls.PollsRefineClaims` | apps/control-plane-api/src/inbox_postgres.rs:222-339 | every run in which the statements of claims overlap with each other and with everything else is, step for step, a run with single-step claims, and no row is ever held by two polls |
| `InboxPolls.OverlappingPollsAreDisjoint` | apps/control-plane-api/src/inbox_postgres.rs:244-258 | two polls that overlap never select the same row |
| `InboxPolls.PollTakesTheFirst` | apps/control-plane-api/src/inbox_postgres.rs:237-287 | however polls overlap, a row that stays available to a poll from its start until it hands out is handed out, unless the poll is full of earlier rows |
| `InboxPolls.OthersWaitOnlyForHeldRows` | apps/control-plane-api/src/inbox_postgres.rs:244-258 | another transaction waits only for a poll that holds a row it would change or remove |
| `InboxPolls.NeverHandedOutTwiceInAWindow` | apps/control-plane-api/src/inbox.rs:38-45 | however polls overlap, a command is handed out at most max_attempts times, and any two polls it was handed to are at least the redelivery window apart |
| `InboxPolls.HandoutsAreDeliveries` | apps/control-plane-api/src/inbox_postgres.rs:289-336 | the hand-outs of overlapping polls are exactly the deliveries in the history of that single-step run |
| `ApprovalGate.DualApprovalGate.constructor` | apps/control-plane-api/src/dual_approval.rs:131-135 | a new gate tracks nothing |
| `ApprovalGate.DualApprovalGate.Submit` | apps/control-plane-api/src/dual_approval.rs:145-178 | the outcome and the table for each case, with the entry stored or removed; other keys only ever expire |
| `ApprovalGate.AnsweredExactly` | apps/control-plane-api/src/dual_approval.rs:145-178 | in every run with time moving forward, each of the five answers has its exact condition: no unexpired first approval of the key and fewer than 4096 keys with one (awaiting a second) or 4096 (rate limited); otherwise another fingerprint, the same operator, or another operator |
| `ApprovalGate.ApprovalNeedsTwoOperators` | apps/control-plane-api/src/dual_approval.rs:145-178 | in every run an approval rests on an earlier first approval of the same key and fingerprint, by another operator, less than the time limit old |
| `ApprovalGate.NoApprovalIsReused` | apps/control-plane-api/src/dual_approval.rs:145-178 | two approvals of a run never rest on the same first approval |
| `ApprovalGate.ApprovedExactlyWhen` | apps/control-plane-api/src/dual_approval.rs:145-178 | with time moving forward, a submission is approved if and only if the current first approval of its key matches, is someone else's and has not expired |
| `ApprovalGate.TableIsBounded` | apps/control-plane-api/src/dual_approval.rs:81-178 | the table never exceeds 4096 entries in any run |
| `Fingerprint.PreimageIsCanonical` | apps/control-plane-api/src/dual_approval.rs:197-299 | two requests hash the same bytes if and only if their fields agree and their parameter trees are equal as maps, absent counting as empty, in any entry order |
| `Fingerprint.ValueIsReadable` | apps/control-plane-api/src/dual_approval.rs:268-299 | no encoded value is a prefix of another: the token stream determines the tree and what follows it |
| `Fingerprint.EqualValuesEncodeAlike` | apps/control-plane-api/src/dual_approval.rs:246-299 | trees equal as maps encode alike whatever order their entries were built in |
| `Fingerprint.SortingKeepsTheMap` | apps/control-plane-api/src/dual_approval.rs:246-254 | sorting the entries keeps the map and puts distinct keys in strict byte order |
| `Fingerprint.FingerprintsAgree` | apps/control-plane-api/src/dual_approval.rs:197-233 | with no collision on the two requests, fingerprints agree exactly for equal commands |
| `ForceStop.ApprovedCommandWasSubmittedTwice` | apps/control-plane-api/src/dual_approval.rs:145-233 | in every run fed with canonical fingerprints that do not collide, an approved command was submitted by two different operators with every field equal and the parameter trees equal as maps |
| `ForceStop.ApprovedExactlyForTheSameCommand` | apps/control-plane-api/src/dual_approval.rs:145-233 | with time moving forward, a submission is approved if and only if the current first approval is for the same command, by someone else, and has not expired |
| `Bytes.FramingIsInjective` | apps/control-plane-api/src/dual_approval.rs:197-233 | length-prefixed framing determines the tokens, in either byte order |
| `FindingStore.SecurityStore.WithQuotas` | crates/apex-security/src/store.rs:50-71 | quotas are accepted exactly when 0 < scope <= global <= the maximum; the new store is empty and reachable |
| `FindingStore.SecurityStore.constructor` | crates/apex-security/src/store.rs:61-71 | a new store is empty |
| `FindingStore.SecurityStore.Append` | crates/apex-security/src/store.rs:75-116 | each of the six answers exactly by what is stored; one more finding on success and nothing changed otherwise; the store stays reachable, so sound |
| `FindingStore.SecurityStore.AppendValidated` | crates/apex-security/src/store.rs:77-116 | the part after validation: the vector and all three indexes gain the finding together, or nothing changes |
| `FindingAppends.AppendAnswersExactly` | crates/apex-security/src/store.rs:75-116 | in every reachable store each of the six answers has its exact condition on the stored findings: its id on another finding, itself or the same content stored, the same scope and hash with other content, no room, or new |
| `FindingMoves.ChangeAnswersExactly` | crates/apex-security/src/store.rs:142-196 | in every reachable store a status change of a stored finding is accepted if and only if the actor is named and in its scope, the step is one of the seven from its current status with an action where needed, and the clock answers; each refusal has its exact condition |
| `FindingMoves.UnknownIsNotFound` | crates/apex-security/src/store.rs:157-170 | NotFound exactly for an id no stored finding has |
| `FindingMoves.CredentialDecidesFirst` | crates/apex-security/src/store.rs:118-138 | the caller's entry point is refused by the credential or is the replay entry point under the credential's subject |
| `FindingStore.SecurityStore.CurrentStatus` | crates/apex-security/src/store.rs:198-208 | the reverse search finds the newest status, Open without an entry, NotFound exactly for unknown ids |
| `FindingStore.SecurityStore.Transition` | crates/apex-security/src/store.rs:118-138 | the credential decides first; on success the named finding moves from the expected to the new status and no other moves, on a refusal nothing changes; never refused for a full log |
| `FindingStore.SecurityStore.TransitionReplayed` | crates/apex-security/src/store.rs:142-155 | the same without a credential, for a record with a subject and a valid scope |
| `FindingStore.SecurityStore.TransitionInternal` | crates/apex-security/src/store.rs:157-196 | the shared part: which refusal wins, one log entry and one moved finding on success, nothing changed otherwise |
| `FindingStore.SecurityStore.CheckChange` | crates/apex-security/src/store.rs:157-185 | the refusals before the log is looked at, in order; an accepted change starts from the current status and is an allowed one |
| `FindingHistory.EveryStoreIsSound` | crates/apex-security/src/store.rs:75-196 | in every reachable store the three indexes agree with the vector in both directions, both quotas hold, every finding passed validation and every log entry was legal when made |
| `FindingHistory.ReachableIsSound` | crates/apex-security/src/store.rs:75-196 | what the object keeps (its contents are reachable by its own calls) implies all of that |
| `FindingScopes.CanMoveExactlyWhen` | crates/apex-security/src/validate.rs:194-206 | in every reachable store a finding can still change status if and only if workspace, slash and namespace fit 256 bytes and its status is not final |
| `FindingScopes.LongScopeStaysOpen` | crates/apex-security/src/store.rs:118-196 | a finding whose scope does not fit stays Open in every reachable store |
| `FindingScopes.LongScopeIsStoredForGood` | crates/apex-security/src/store.rs:75-196 | such findings are real: any valid one is stored by the first call and no status change of it is accepted |
| `FindingScopes.OwnScopeIsValid` | crates/apex-security/src/validate.rs:186-206 | the scope text of a finding is a valid actor scope exactly when it is at most 256 bytes |
| `FindingHistory.EveryUpdateIsLegal` | crates/apex-security/src/store.rs:157-196 | every logged change names a stored finding, in its own scope, by a named subject, from the status it had then, strictly forward, with an action where one is required |
| `FindingHistory.LogNeverFills` | crates/apex-security/src/store.rs:157-196 | the status-log capacity refusal is unreachable in every reachable store |
| `FindingHistory.ChangeRaisesSum` | crates/apex-security/src/validate.rs:224-235 | one allowed change raises the summed status ranks by at least one |
| `FindingHistory.MovableLeavesRoom` | crates/apex-security/src/validate.rs:224-235 | while some finding can still move, the summed ranks stay below three per finding |
| `FindingHistory.ConflictMeansCollision` | crates/apex-security/src/store.rs:75-116 | for any hash, append reports a fingerprint conflict if and only if a valid finding with a new id meets a stored one of its scope whose different hashed bytes have the same hash |
| `FindingReplay.ReplayRestoresTheStore` | crates/apex-security/src/store.rs:75-208 | appending a reachable store's findings and then replaying its updates gives back findings, indexes, the log without time stamps and every status |
| `FindingReplay.EveryRecordIsAccepted` | crates/apex-security/src/store.rs:75-208 | in that replay every append answers that it is new and every update is accepted |
| `FindingReplay.IndexesAreDetermined` | crates/apex-security/src/store.rs:75-116 | two sound stores with the same findings have the same three indexes |
| `FindingJournal.RestartRestoresTheStore` | crates/apex-durability/src/persistence/journal.rs:98-173 | reading back the journal in the order it was written accepts every record and restores the store, time stamps aside |
| `FindingJournal.StepIsReadBack` | crates/apex-durability/src/persistence/journal.rs:218-257 | each call writes at most one record, one that writes none changed nothing, and reading it back has the call's effect |
| `Findings.ValidateFinding` | crates/apex-security/src/validate.rs:17-59 | accepts exactly valid findings: header grammar and classification, valid distinct evidence, the right fingerprint |
| `Findings.CheckEvidence` | crates/apex-security/src/validate.rs:17-59 | the loop with its set of seen evidence accepts exactly well-formed evidence without repeats |
| `Findings.ClassificationExactly` | crates/apex-security/src/validate.rs:61-81 | a valid finding is High, Critical exactly for secret exposure, and carries the one policy of its type |
| `Findings.TextGrammarsExactly` | crates/apex-security/src/validate.rs:166-222 | detector names, field paths and hashes are exactly the stated characters and lengths |
| `Findings.BuildPreimage` | crates/apex-security/src/validate.rs:94-118 | the digest input built component by component is the framed token list |
| `Findings.Absorb` | crates/apex-security/src/validate.rs:120-123 | each component adds its 8-byte big-endian length and its bytes |
| `Findings.PreimageDetermines` | crates/apex-security/src/validate.rs:94-184 | the hashed bytes determine every field the duplicate test compares |
| `Limiter.AdmissionTable.constructor` | apps/control-plane-api/src/service.rs:150-154 | a new table is empty |
| `Limiter.AdmissionTable.AdmitIn` | apps/control-plane-api/src/service.rs:415-451 | the verdict and the table after one call; the table stays within its bound and other subjects are only ever evicted |
| `Limiter.EvictionIsInvisible` | apps/control-plane-api/src/service.rs:415-451 | with time moving forward every call not refused for a full table gets the verdict of a limiter that never evicts |
| `Limiter.AtMostTwiceTheLimit` | apps/control-plane-api/src/service.rs:415-451 | one subject is admitted at most 2 * limit times in any span of one window length |
| `Limiter.NoWindowNoLimit` | apps/control-plane-api/src/service.rs:415-451 | in every other configuration (no window) every call is admitted |
| `Limiter.VerdictExactly` | apps/control-plane-api/src/service.rs:415-451 | in every run with time moving forward, a call is refused for a full table exactly when its subject was not counted in the last two windows and max_tracked others were, and is otherwise admitted exactly when fewer than `limit` admissions fell in its current window |
| `Limiter.TableIsBounded` | apps/control-plane-api/src/service.rs:415-451 | the table never exceeds max_tracked subjects |
| `Clock.EverySnapshotIsSound` | crates/apex-telemetry/src/clock.rs:141-230 | if the wall reading fell between the bracket readings and within its declared error, every accepted snapshot of every run is within its reported uncertainty of true time |
| `Clock.UncertaintyIsSound` | crates/apex-telemetry/src/clock.rs:194-230 | the same for one sample |
| `Clock.AcceptedNeverGoBack` | crates/apex-telemetry/src/clock.rs:194-230 | accepted samples never go backwards, in nanoseconds or microseconds, and never precede the bracket |
| `Clock.RejectedChangesNothing` | crates/apex-telemetry/src/clock.rs:194-230 | a rejected reading leaves the last accepted value as it was |
| `Clock.AnchoredClock.constructor` | crates/apex-telemetry/src/clock.rs:175-187 | the first value a sample may have is the reading after the wall read |
| `Clock.AnchoredClock.Now` | crates/apex-telemetry/src/clock.rs:194-230 | the checked arithmetic, step by step, gives the mapped sample, and only acceptance moves the clock on |
| `Clock.AnchorAt` | crates/apex-telemetry/src/clock.rs:141-187 | the anchor lies in the bracket and the added radius is exactly the distance to its farther end |
| `Clock.RadiusIsSmallest` | crates/apex-telemetry/src/clock.rs:141-187 | no other anchor would need a smaller radius |
| `Clock.AnchoredExactly` | crates/apex-telemetry/src/clock.rs:141-187 | exactly which bracketed readings make an anchor, and which refusal the others get |
| `Clock.FirstFailureDecides` | crates/apex-telemetry/src/clock.rs:141-187 | of several failing readings the first decides, and a bad label comes before all |
| `Clock.SampledExactly` | crates/apex-telemetry/src/clock.rs:194-230 | exactly which readings are accepted; the snapshot is Unix time rounded down and the smallest covering uncertainty |
| `Clock.RepeatedReadingIsAccepted` | crates/apex-telemetry/src/clock.rs:194-230 | a reading equal to the last accepted one is accepted with the same snapshot |
| `Clock.BackwardsExactly` | crates/apex-telemetry/src/clock.rs:194-230 | in every run a reading is refused as backwards exactly when it precedes the latest accepted one |
| `Clock.CeilMicroseconds` | crates/apex-telemetry/src/clock.rs:264-270 | the smallest number of microseconds that covers the nanoseconds, refused only when it does not fit |
| `Clock.DurationNs` | crates/apex-telemetry/src/clock.rs:238-258 | the exact difference; backwards exactly when the end precedes the start |
| `Clock.DurationUs` | crates/apex-telemetry/src/clock.rs:250-262 | the difference rounded down to a microsecond; backwards exactly when the end precedes the start |
| `Fanout.DelayBounds` | apps/control-plane-api/src/replay.rs:27-44 | each backoff is 10, 20, 40 and then 60 seconds plus less than one second, the same jitter for every attempt of a key |
| `Fanout.FanoutWorker.constructor` | apps/control-plane-api/src/replay.rs:88-100 | a new worker remembers nothing |
| `Fanout.FanoutWorker.SelectDue` | apps/control-plane-api/src/replay.rs:114-125 | exactly the rows of the batch past their deadline |
| `Fanout.FanoutWorker.Publish` | apps/control-plane-api/src/replay.rs:162-215 | every due row ends up on exactly one of the two lists, by its publish result |
| `Fanout.FanoutWorker.Forget` | apps/control-plane-api/src/replay.rs:216-236 | the listed rows lose their counter and deadline, all others keep theirs |
| `Fanout.FanoutWorker.Reschedule` | apps/control-plane-api/src/replay.rs:237-283 | each failed row counts one more failure and gets its next deadline, and exactly the exhausted ones are quarantined |
| `Fanout.FanoutWorker.PublishAndSettle` | apps/control-plane-api/src/replay.rs:114-236 | due rows are split into those handed to the outbox to settle, which are forgotten, and failed ones, which keep their bookkeeping |
| `Fanout.FanoutWorker.RunTick` | apps/control-plane-api/src/replay.rs:88-283 | one tick updates every row's bookkeeping as its own fate demands, and hands exactly the published rows over to settle and the exhausted ones to quarantine |
| `Fanout.StreakExplains` | apps/control-plane-api/src/replay.rs:88-283 | in every run the counters and deadlines are those of the row's unbroken streak of failed tries |
| `Fanout.LeavesOnlyWhenDoneOrExhausted` | apps/control-plane-api/src/replay.rs:88-290 | against an outbox that removes any part of the keys it is handed, a row leaves only after a publish that returned Ok, or on the eighth or later failure of an unbroken streak at least 310 seconds after its first |
| `Fanout.BackoffIsKept` | apps/control-plane-api/src/replay.rs:114-125 | a row in a streak is tried again no sooner than its backoff |
| `Fanout.TriedExactly` | apps/control-plane-api/src/replay.rs:114-125 | in every run a row of the batch is tried if and only if it is in no streak or its backoff is over |
| `Fanout.HandedOverExactly` | apps/control-plane-api/src/replay.rs:162-283 | in every run a row is handed over to settle exactly when its try succeeded, and to quarantine exactly when it failed after seven or more failures |
| `Envelope.AcceptedCarriesTheInput` | apps/control-plane-api/src/envelope.rs:236-353 | every accepted command: delivery record and audit event carry exactly the submitted scope, agent, run, parent run, trace, action, reason, parameters and the resolved id and time, and the agent reads back the submitted action |
| `Envelope.ActionNamesRoundTrip` | apps/control-plane-api/src/service/proto_mapping.rs:41-52 | naming an action and reading the name back are inverse to each other |
| `Envelope.RefusedInOrder` | apps/control-plane-api/src/envelope.rs:236-353 | scope, action, command id and ingest refuse in this order, and a command that passes all four is accepted |
| `Envelope.RecoveryRefusesExactly` | apps/control-plane-api/src/envelope.rs:108-150 | recovery refuses exactly what is not a control event with a scope and readable data |
| `Envelope.RecoveryYields` | apps/control-plane-api/src/envelope.rs:108-353 | recovery from the audit event of any accepted command gives its delivery record, except that a plain stop with a reserved reason comes back as a force_stop with the reserved part removed |
| `Envelope.RecoveryIsExact` | apps/control-plane-api/src/envelope.rs:108-353 | the recovered record is the delivery record of acceptance if and only if the command was not a plain stop with a reserved reason |
| `Envelope.StopBecomesForceStop` | crates/apex-domain/src/validation/control.rs:20-51 | every parameterless stop whose reserved reason is an identifier passes the control-event rules (four keys, action, enforcement, reason, parameters), is queued as a stop and is recovered as a force_stop |
| `Envelope.MarkedStopBecomesForceStop` | apps/control-plane-api/src/envelope.rs:35-178 | in particular a stop with reason apex.force_stop is recovered as a force_stop without a reason |
| `Envelope.SubstitutionIsUndone` | apps/control-plane-api/src/envelope.rs:35-43 | undoing the audit substitution restores action and reason under the same condition |
| `Envelope.BuildControlData` | apps/control-plane-api/src/envelope.rs:387-416 | the data object has exactly the four keys ingest demands, and the reading half of recovery gets back the action, the reason and the parameters that were put in |
| `JsonBounds.CheckBounds` | apps/proxy-runtime-agent/src/inspect_decode.rs:198-234 | the byte loop with its early exits decides acceptance by the scan |
| `JsonBounds.AcceptsExactlyBoundedJson` | apps/proxy-runtime-agent/src/inspect_decode.rs:198-234 | any printing of any JSON value, with any escapes and spacing, is accepted if and only if it is at most 65,536 bytes and nests at most 32 deep |
| `JsonBounds.ValueScans` | apps/proxy-runtime-agent/src/inspect_decode.rs:198-234 | from depth d the scan of a value returns to d, or is refused exactly when it nests too deep |

## Left out

- gRPC, TLS, Keycloak, credential files and startup wiring: transport and library plumbing.
- Connection selection, recovery of a lost connection and schema DDL: only the effect of the statements on the table is modelled; rows that exist before the first connection are not.
- Row locks of single-statement transactions (acknowledge, cancel, maintain): they are one step, so their locks are never seen; a claim may skip any further rows, as a parameter. The starvation bound counts only polls that did not skip the row.
- The order of `UPDATE ... RETURNING` and the returned row count: the model reads the updated rows in sequence order, which is what the original restores by sorting.
- `list_commands`, the inbox counts, and the file and memory inbox backends: they would add easy members.
- InboxStore.CommandInbox.Record: covers a record that nothing interleaves with; the interleaved form is the step machine of `InboxProtocol`.
- `command_hash`, SHA-256, protobuf and serde internals: the hash input, the encoder and the decoder are parameters or semantic values.
- The checks of the ingest validator and the integrity fields of the audit event: the validator is an arbitrary predicate, except that one result uses its rules on action, reason and the parameters of a `stop`.
- Metrics, logs, error texts, mutex poisoning and the accelerator path of admission.
- Clock source labels: their validity is a boolean parameter.
- Shutdown, draining and the reschedule call of the fanout worker: a tick is one pass of its loop body.
- Torn trailing lines, size limits and failed writes of the finding journal: the journal holds the records of accepted calls.
- Detection of findings and listing them by scope: easy members.
