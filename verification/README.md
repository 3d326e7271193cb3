# Testkube: the coordination core, modelled and proved

This project models, in Dafny, the parts of Testkube where several actors share state: API-server instances that
compete for a lease, the worker pool under a test suite, the reconciliation of event listeners, the cloud agent's
command pipeline, the bookkeeping of executions that several writers touch, and the two places where an executor's
output decides something (which log line is the result, and which bytes must not be printed). `dafny verify
dfyconfig.toml` checks everything.

Code that is a protocol between goroutines or processes is a state machine over its steps; a run is a sequence of
steps, so each interleaving is one run, and a statement about every run is a statement about every interleaving. Code
that updates objects, slices or buffers in place is a class or a method over an array, proved against a function of
its inputs; the lemmas then say what that function means. Maps are iterated in arbitrary order. Errors of the
database, of the message bus and of the cluster are inputs.

| module | what it models |
|---|---|
| `WorkerPool` | `pkg/workerpool`: sender, workers and consumer over two bounded channels |
| `TestSuiteStep`, `TestSuiteRun`, `TestSuiteOutcome` | one batch of a test suite on top of the pool, the run over all batches, and both together |
| `Lease`, `LeaseElection`, `LeaseSplitStep` | the trigger lease: its backend, the timed election, and the backend's operations interleaved |
| `Watcher` | the informers' start and stop on lease verdicts |
| `Emitter` | listener reconciliation over the subscription table |
| `TriggerStatus` | the id lists of a trigger and the scraper's passes over them |
| `JobOutcome`, `JobOutcomeSplit` | the writers of one execution result, as whole calls and with their reads and writes interleaved |
| `Reconciler` | the suites left running by a restart |
| `Agent` | the cloud agent's buffers, workers and streams over reconnects |
| `LogParser` | the choice of the log line that decides an outcome |
| `SecretMasking`, `EnvExchange` | masking secrets in output, and handing them to the pod |
| `Executions`, `Collections` | execution results and suite entries; facts about sequences, multisets and sets |

Times are nanoseconds. The concurrency level, the lease duration, the buffer sizes and the error texts are those of
the code.

## What turned out otherwise than one might expect

- The lease never excludes. With atomic `TryAcquire`, two instances can run at once for any positive delay between
  checks (`LeaseElection.AtMostOneIff`), and never more than two exactly if checks are at most one lease duration and a
  nanosecond apart (`LeaseElection.AtMostTwoIff`). With the find and the update as separate operations, any number of
  callers can be told true at one instant (`LeaseSplitStep.SplitStepDoesNotExclude`), because the update filters on
  the id alone.
- A batch with stop-on-failure whose outcome could not be saved does not stop the suite, and a suite whose last batch
  stops it ends as failed, not as aborted (`TestSuiteRun.RunSteps`).
- A test whose run answers for another execution, as it does when the execution's name is taken, or errors, is left
  running and does not fail its suite, which can end as passed (`TestSuiteOutcome.TestIsLeftRunning`,
  `TestSuiteOutcome.PassedIff`).
- An unparsable delay beside a parsable one passes when the delay runs its course (`TestSuiteStep.ErrorsAreRecorded`).
- A subscription that the server refused is never retried as long as the listener does not change
  (`Emitter.NeverRetried`, `Emitter.Reconcile`).
- An abort or timeout that was stored is overwritten exactly by writers that had read the execution before or do not
  read it at all (`JobOutcomeSplit.OverwrittenIff`, `JobOutcomeSplit.PodOverwritesAbort`). The scheduler and the
  container executor do not read, so an abort can be lost although no two calls overlap
  (`JobOutcome.SchedulerOverwritesAbort`; the exact condition is `JobOutcome.SealedStays`).
- When a pod of an execution that has an error message already fails, that message is stored twice
  (`JobOutcome.StoredByPodCheck`); the error of a job that could not be deleted ends up in the output, not in the error
  message (`JobOutcome.StoredByOthers`).
- A test that passes with no output and is followed by a line of chatter is reported as failed
  (`LogParser.SilentPassIsLost`; the exact condition is `LogParser.LastResultReturnedIff`).
- A secret that begins or ends with a star can survive its own masking (`SecretMasking.MaskingWorksIff`), and any star
  in a secret can be written by the mask of a shorter one (`SecretMasking.MaskingInCompanyWorksIff`); for two secrets
  that neither begin nor end with a star, `SecretMasking.TwoSecretsAreSafeIff` is the exact condition.
- `PrepareSecrets` numbers the secret variables from 1 again, so secret envs and secret variables share numbered names,
  and `GetSecretEnvs` recovers all of them exactly if there are none of one kind (`EnvExchange.SecretEnvsRoundTripIff`).
- The removal loop over ids fails on some lists that hold the target more than once
  (`TriggerStatus.RemovalWorksIff`). A scraper pass mends what a single removal leaves behind, but it panics exactly
  when the last id is to be dropped and occurs before that, too; two runs that failed before they had an execution
  leave such a list (`TriggerStatus.CheckForRunning`, `TriggerStatus.TwoFailedRunsBreakThePass`).

## Model

| member | source | states |
|---|---|---|
| WorkerPool.StepConserves | pkg/workerpool/service.go:72-113 | no step of any goroutine loses, duplicates or swaps a request |
| WorkerPool.StepKeepsChannels | pkg/workerpool/service.go:72-113 | channel bounds hold; requests is closed after the last send and responses after the last worker left; an uncancelled worker leaves only a drained queue |
| WorkerPool.RunConserves | pkg/workerpool/service.go:72-113 | in every state of every run, unsent, queued, executing and answered requests are together the original ones, no more are with workers at once than the concurrency level, and no worker is left that could send on the closed responses channel |
| WorkerPool.FinishedRunAnswersAll | pkg/workerpool/service.go:42-53 | a finished uncancelled run delivers exactly ExecFn mapped over the requests, up to order |
| WorkerPool.ReceivedAnswersAreCorrect | pkg/workerpool/service.go:42-53 | on any run, each response received answers a request of the batch with what ExecFn returned for it; answers given after a cancellation occur on cancelled runs only |
| WorkerPool.StepUsesOne | pkg/workerpool/service.go:97-113 | every step lowers the measure of remaining work by exactly one |
| WorkerPool.SomebodyCanMove | pkg/workerpool/service.go:72-113 | no deadlock: until the consumer's loop has ended some goroutine has a step, and no cancellation is needed for it |
| WorkerPool.EveryRunEnds | pkg/workerpool/service.go:72-113 | every run has at most 5n + c + 3 steps, and a run that is stuck but for a cancellation has finished |
| WorkerPool.CanFinish | pkg/workerpool/service.go:72-113 | every state that keeps the channel rules leads to a finished one without a further cancellation |
| WorkerPool.UncancelledRunsTakeEquallyLong | pkg/workerpool/service.go:72-113 | every finished uncancelled run has exactly 5n + c + 2 steps, whatever the interleaving |
| TestSuiteStep.PrepareStep | pkg/scheduler/testsuite_scheduler.go:388-435 | requests in entry order, the longest delay that parses, and the errors recorded on entries, which `TestSuiteStep.ErrorsAreRecorded` spells out |
| TestSuiteStep.LongestDelayIsMaximum | pkg/scheduler/testsuite_scheduler.go:423-431 | the duration bounds every delay that parses, and is one of them unless it is zero |
| TestSuiteStep.ErrorsAreRecorded | pkg/scheduler/testsuite_scheduler.go:423-434 | an entry of no type, or whose delay does not parse, has failed with that error under its id, on a new execution if it had none; the second passes only beside a delay that runs its course |
| TestSuiteStep.DelayOutcome | pkg/scheduler/testsuite_scheduler.go:536-570 | any other entry with a delay and a result, beside a positive longest one: all pass after the whole delay; after an abort, only those that are shorter than the longest do. Nothing but status and error changes |
| TestSuiteStep.StaysAsItIs | pkg/scheduler/testsuite_scheduler.go:388-435 | every entry that the two rows above do not cover stays untouched until the responses are joined |
| TestSuiteStep.DelayWithAbortionCheck | pkg/scheduler/testsuite_scheduler.go:536-570 | which delay entries end passed, failed or aborted, after the whole delay and after an abort |
| TestSuiteStep.JoinResponses | pkg/scheduler/testsuite_scheduler.go:486-507 | every entry takes the last response carrying its execution's id, in place |
| TestSuiteStep.ResultsByIdLookup | pkg/scheduler/testsuite_scheduler.go:486-489 | an id is found in the joined results if and only if a response carries it |
| TestSuiteStep.RequestsComeFromEntries | pkg/scheduler/testsuite_scheduler.go:399-415 | a request is sent if and only if it is that of some entry |
| TestSuiteStep.CarriedIdIsOwn | pkg/scheduler/testsuite_scheduler.go:486-507 | only an entry's own run can answer with the entry's id |
| TestSuiteStep.NoMoreAtOnce | pkg/scheduler/testsuite_scheduler.go:437-442 | under any schedule no more tests of a batch are with workers at once than requested, or than ten if nothing was |
| TestSuiteStep.JoinIgnoresTheOrder | pkg/scheduler/testsuite_scheduler.go:486-507 | any permutation of the responses gives every entry its own run's outcome; entries whose run errored and those that are no tests keep their execution |
| TestSuiteStep.ReadsPermutation | pkg/scheduler/testsuite_scheduler.go:478-488 | what the consumer reads under any schedule that ends uncancelled is a permutation of the runs' responses |
| TestSuiteStep.ScheduleDoesNotMatter | pkg/scheduler/testsuite_scheduler.go:478-507 | where ids tell the executions apart, runs answer for no other entry and nothing is cancelled, the joined entries are the same under every schedule |
| TestSuiteStep.ExecuteTestStep | pkg/scheduler/testsuite_scheduler.go:380-508 | the final entries of a batch under any schedule that ends, cancelled or not and whatever the ids; in the orderly case every entry has its own run's outcome and the schedule does not occur |
| TestSuiteRun.MarkEntries | pkg/scheduler/testsuite_scheduler.go:201-205 | exactly the entries with a result get the status, and keep their step, id, error message and output |
| TestSuiteRun.AbortBatch | pkg/scheduler/testsuite_scheduler.go:183-198 | marking twice aborts the batch as marking once would |
| TestSuiteRun.CheckFailures | pkg/scheduler/testsuite_scheduler.go:231-239 | the batch failed if any step did, and cancels the rest if it also stops on failure |
| TestSuiteRun.ExecuteBatch | pkg/scheduler/testsuite_scheduler.go:200-239 | one executed batch: whether it counts as failed and whether it stops the suite, also when its save fails |
| TestSuiteRun.Conclude | pkg/scheduler/testsuite_scheduler.go:243-258 | the final status, and one end event, which is that of the status |
| TestSuiteRun.CutMeaning | pkg/scheduler/testsuite_scheduler.go:175-239 | no event waits for a batch that runs, only the last of them may be a saved, failed and stopping one, and the batch after it is held up by one or the other |
| TestSuiteRun.FinalStatusMeaning | pkg/scheduler/testsuite_scheduler.go:243-258 | timed out if the run was cut and the last event taken is a timeout, aborted if it was cut otherwise, failed if it was not and a batch failed or could not be saved, else passed |
| TestSuiteRun.RunSteps | pkg/scheduler/testsuite_scheduler.go:140-272 | executed batches are a prefix that ends where an event waits or behind a failure that stops; in all later ones every entry with a result is aborted and keeps its step, id, error message and output, and every other entry is as it was; the final status, and exactly the one end event of that status |
| TestSuiteRun.PassedMeansAllRanAndPassed | pkg/scheduler/testsuite_scheduler.go:175-258 | passed if and only if every batch ran, was saved and had no failure; aborted or timed out if and only if something cut the run short |
| TestSuiteRun.LastEventMeaning | pkg/scheduler/testsuite_scheduler.go:175-180 | the event that decides is the latest consumed one |
| TestSuiteOutcome.FinalEntries | pkg/scheduler/testsuite_scheduler.go:200-239 | in a whole run, an entry of an executed batch whose ids tell its executions apart ends with its own run's outcome, whatever the pool's schedule |
| TestSuiteOutcome.OwnOutcomeIsTaken | pkg/scheduler/testsuite_scheduler.go:486-507 | in such a batch a test whose run answered for it ends with exactly that execution |
| TestSuiteOutcome.TestIsLeftRunning | pkg/scheduler/test_scheduler.go:54-58 | a test whose run errored or answered for another execution is left running, with its id, error message and output |
| TestSuiteOutcome.BatchFailsIff | pkg/scheduler/testsuite_scheduler.go:231-239 | such a batch has a failed entry if and only if it has a test whose own run failed, a step of no type, a delay that does not parse and that no other one lets pass, or an entry without a result |
| TestSuiteOutcome.BrokenStepFailsTheSuite | pkg/scheduler/testsuite_scheduler.go:423-434 | a batch that ran with a step of no type or such a delay keeps a suite from passing: it ends as failed if it was not cut |
| TestSuiteOutcome.PassedIff | pkg/scheduler/testsuite_scheduler.go:207-258 | where the ids of each executed batch tell its executions apart, a suite ends as passed if and only if every batch ran and was saved and no entry is one of those |
| Lease.MongoLeaseBackend.InsertLease | pkg/triggers/lease_backend.go:93-100 | inserts a new lease unless the id is taken, also when the reply is lost |
| Lease.MongoLeaseBackend.FindOrInsertCurrentLease | pkg/triggers/lease_backend.go:73-91 | returns the stored lease untouched, or the new one it inserted, or an error |
| Lease.MongoLeaseBackend.TryUpdateLease | pkg/triggers/lease_backend.go:102-133 | overwrites the document of that id, whoever holds it |
| Lease.MongoLeaseBackend.TryAcquire | pkg/triggers/lease_backend.go:45-71 | the composition is the atomic acquisition step; a healthy call answers true if and only if there is no lease, it was not renewed for longer than a lease duration, or it names the caller; then the stored lease names the caller and is fresh; other clusters' documents stay |
| Lease.GrantedIff | pkg/triggers/lease_backend.go:135-154 | when the lease is granted, by the fields of the stored one and for every fault |
| Lease.RenewedIff | pkg/triggers/lease_backend.go:60-66 | what is stored then: a missing or expired lease is written anew, with its AcquiredAt if it was the caller's, any other stays |
| Lease.MongoIdIsInjective | pkg/triggers/lease_backend.go:156-158 | clusters do not share a document |
| LeaseElection.StepKeepsDocument | pkg/triggers/lease_backend.go:45-71 | AcquiredAt is always the time at which the lease was inserted or last changed its holder, and identifier names who it went to then; changes of holder are more than a lease duration apart |
| LeaseElection.PollKeepsInv | pkg/triggers/lease_backend.go:45-71 | a call of TryAcquire keeps the claims of all instances bounded by the stored lease, also when the lease changes hands |
| LeaseElection.StepKeepsInv | pkg/triggers/watcher.go:74-105 | so does every other step: time, joins, crashes, deliveries |
| LeaseElection.BoundedOverlap | pkg/triggers/lease.go:8-34 | at most two instances run at once; while two do, they are the present and the previous holder, and the lease went from the one to the other less than d ago |
| LeaseElection.LateCheckOverlaps | pkg/triggers/lease_backend.go:135-154 | a reachable state in which two run, for every positive d |
| LeaseElection.SlowChecksOverlapThrice | pkg/triggers/lease_backend.go:135-154 | a reachable state in which three run, for every d beyond the bound |
| LeaseElection.AtMostTwoIff | pkg/triggers/service.go:36-37 | at most two at a time in every reachable state if and only if checks are at most a lease duration and a nanosecond apart |
| LeaseElection.AtMostOneIff | pkg/triggers/lease.go:8-34 | at most one at a time if and only if there is no delay at all |
| LeaseElection.LeaseHistory | pkg/triggers/lease_backend.go:45-71 | over any run, RenewedAt only grows; holder and AcquiredAt are the same again if the lease did not change hands, and otherwise AcquiredAt lies beyond the earlier expiry |
| LeaseElection.AcquiredAtStays | pkg/triggers/lease_backend.go:60-66 | if every state of a run names the same holder, AcquiredAt is the same at its end, however often the lease was renewed |
| LeaseElection.HoldersChangeOnlyAfterExpiry | pkg/triggers/lease_backend.go:135-154 | AcquiredAt is the time of the last change of holder and never exceeds RenewedAt; changes are more than a lease duration apart, and the next one comes more than that after the last renewal before it |
| LeaseElection.LoneInstanceLeads | pkg/triggers/lease.go:8-34 | an instance that polls alone, with healthy calls, is told true by every poll, however often its own lease runs out; if another one holds the lease at first, exactly by the polls after that expired |
| LeaseSplitStep.AloneIsAtomic | pkg/triggers/lease_backend.go:45-133 | a call whose operations nobody comes between, all at one instant, stores and answers what the atomic step does, for every fault |
| LeaseSplitStep.StepKeepsInv | pkg/triggers/lease_backend.go:45-133 | each database operation and each look at the clock keeps the grants justified |
| LeaseSplitStep.EveryGrantIsJustified | pkg/triggers/lease_backend.go:45-133 | with the operations interleaved, true is returned only if the stored lease named the caller at some moment of the call; a document once inserted stays |
| LeaseSplitStep.SplitStepDoesNotExclude | pkg/triggers/lease_backend.go:118-123 | for every n there is a run in which n callers are told true at the same instant |
| Watcher.Watcher.Receive | pkg/triggers/watcher.go:86-102 | one verdict: starts or stops exactly on a change, and keeps the generations in order |
| Watcher.Watch | pkg/triggers/watcher.go:74-105 | after any verdicts it runs exactly if the last was true, has informers and the latest generation's stop channel exactly then, and its history alternates start and stop generation by generation, so no channel is closed twice |
| Watcher.AlternationCounts | pkg/triggers/watcher.go:86-102 | how many of n alternating events are starts and stops |
| Watcher.StartsMinusStops | pkg/triggers/watcher.go:86-102 | starts minus stops is 1 while running and 0 otherwise |
| Watcher.ClosedOnceAfterMade | pkg/triggers/watcher.go:86-102 | no stop channel is made or closed twice, and each is closed right after its own informers were started |
| Emitter.CompareIsEquality | pkg/event/kind/common/interfaces.go:50-67 | comparing both ways is equality of the metadata, hence an equivalence |
| Emitter.NatsBus.SubscribeTopic | pkg/event/bus/nats.go:69-83 | stores the handle under the sanitized queue name if the server accepts, and nothing otherwise |
| Emitter.NatsBus.Unsubscribe | pkg/event/bus/nats.go:85-94 | drains the stored handle; the table keeps it |
| Emitter.ListenerNameMeaning | pkg/event/kind/common/name.go:9-16 | a queue name keeps the letters, digits and dots of the listener name, in order |
| Emitter.IndexIsLast | pkg/event/emitter.go:64-78 | of the listeners with one kind and name, the last of the list counts |
| Emitter.IndexHasNoOthers | pkg/event/emitter.go:64-78 | and there is none under a kind and name that the list does not have |
| Emitter.Collect | pkg/event/emitter.go:64-78 | the nested map holds each kind and name once, with the later of two listeners |
| Emitter.Emitter.StopListener | pkg/event/emitter.go:167-173 | ends exactly the subscription of that queue |
| Emitter.Emitter.StartListener | pkg/event/emitter.go:159-165 | where the queue has no live subscription, starting orphans none |
| Emitter.Emitter.StopAll | pkg/event/emitter.go:92-96 | in any order, exactly these names' subscriptions end, one bus call each |
| Emitter.Emitter.StopMissing | pkg/event/emitter.go:81-97 | exactly the listeners missing from the new list lose their subscription, one bus call each |
| Emitter.Emitter.UpdateOne | pkg/event/emitter.go:113-120 | a new listener is started, a changed one restarted on its free queue, an unchanged one left alone |
| Emitter.Emitter.StartNew | pkg/event/emitter.go:100-124 | in any order of kinds and names, every new listener is dealt with once, and the result lists each once |
| Emitter.Emitter.UpdateListeners | pkg/event/emitter.go:56-127 | the list becomes the deduplicated new one; unchanged listeners keep their very subscription, others have a new one bound to themselves if accepted, no other subscription is live and none orphaned; everything is served if and only if nothing was refused; the exact number of bus calls |
| Emitter.StillBound | pkg/event/emitter.go:113-120 | a kept handler, though an older object, has the metadata of the listener it serves |
| Emitter.Reconcile | pkg/event/emitter.go:56-127 | over any sequence of updates and refusals, each listener of the last list is served if and only if its last start was accepted, by a handler with its metadata |
| Emitter.NeverRetried | pkg/event/emitter.go:113-120 | a refused listener that does not change stays unserved although the server would accept it later |
| Emitter.RepeatUpdate | pkg/event/emitter.go:113-122 | updating again with the list that is there makes no bus call and keeps every subscription |
| TriggerStatus.IdSlice.Add | pkg/triggers/status.go:66-71 | appends an id, in place or in a larger array |
| TriggerStatus.IdSlice.CutAt | pkg/triggers/status.go:79 | the shift within the backing array, including the cell it leaves behind |
| TriggerStatus.IdSlice.Remove | pkg/triggers/status.go:73-82 | ranging over the array it shifts, the loop agrees with its model on values for every list, panics included |
| TriggerStatus.RangeRemoveMeaning | pkg/triggers/status.go:77-81 | it panics if and only if the target is the last id and occurs before that; otherwise it leaves the list without the occurrences it looks at |
| TriggerStatus.RemovalWorksIff | pkg/triggers/status.go:77-81 | it removes just the target if and only if that occurs at most once, or is not last and has no two occurrences side by side |
| TriggerStatus.DuplicatesBreakRemoval | pkg/triggers/status.go:77-81 | a list on which it panics, one where it leaves an occurrence, and one with the target twice that it gets right |
| TriggerStatus.RemoveExecutionId | pkg/triggers/status.go:73-82 | so does the in-place removal, under exactly that condition |
| TriggerStatus.IdSlice.Copy | pkg/triggers/status.go:37-45 | a copy that later removals do not disturb |
| TriggerStatus.CheckOne | pkg/triggers/scraper.go:42-54 | one id: a removal if unknown or over, nothing if active or unreadable |
| TriggerStatus.AbortOne | pkg/triggers/scraper.go:92-111 | one id: a removal if unknown or active and aborted, nothing otherwise |
| TriggerStatus.SweepKeeps | pkg/triggers/status.go:77-81 | no removal takes away an id that is to be kept |
| TriggerStatus.DropBreaksIff | pkg/triggers/scraper.go:41-55 | in the middle of a pass, the next removal panics if and only if the pass was bound to and has come to the last id |
| TriggerStatus.CheckForRunning | pkg/triggers/scraper.go:38-56 | for every list, repeated ids included: leaves exactly the ids whose execution is running, queued or unreadable, in order, or panics, exactly when the last id is to be dropped and occurs before that |
| TriggerStatus.AbortRunning | pkg/triggers/scraper.go:88-113 | likewise: drops exactly the ids that are unknown or were active and could be aborted, or panics under the same condition |
| TriggerStatus.CheckKeepsIff | pkg/triggers/scraper.go:38-56 | a scraper pass keeps exactly the ids whose execution is active or unreadable |
| TriggerStatus.AbortKeepsIff | pkg/triggers/scraper.go:88-113 | an abort pass keeps exactly those that are over, unreadable or could not be aborted |
| TriggerStatus.CheckPanicsIff | pkg/triggers/scraper.go:41-55 | a scraper pass panics if and only if the last id is over or unknown and occurs before that |
| TriggerStatus.AbortPanicsIff | pkg/triggers/scraper.go:91-112 | an abort pass does if and only if the last id is unknown or was aborted, and occurs before that |
| TriggerStatus.DistinctIdsAreSafe | pkg/triggers/scraper.go:41-55 | no pass over ids that occur once each panics |
| TriggerStatus.TwoFailedRunsBreakThePass | pkg/triggers/executor.go:65-67 | the two empty ids of two failed runs make the next pass panic |
| TriggerStatus.TriggerStatus.Scrape | pkg/triggers/scraper.go:24-33 | both passes, with no condition on the lists; the trigger is marked finished if and only if it had active executions and all of them are over or unknown |
| TriggerStatus.TriggerStatus.AbortExecutions | pkg/triggers/scraper.go:78-86 | both abort passes; marked finished whenever nothing active is left |
| TriggerStatus.KeptAreIds | pkg/triggers/scraper.go:38-56 | an id is kept if and only if it was there and is not to be dropped |
| TriggerStatus.NothingKept | pkg/triggers/scraper.go:28-31 | nothing is left if and only if every id is to be dropped |
| JobOutcome.Repository.UpdateResult | pkg/repository/result/mongo.go:397-426 | stores the status and joins the error messages, output apart |
| JobOutcome.StopExecution | pkg/executor/client/job.go:360-414 | the stored result and output after it, for shared and separate result objects and for every failing repository call, when nothing comes between its read and its write |
| JobOutcome.StoredByStop | pkg/executor/client/job.go:360-414 | for every stored and every given result: an aborted or timed-out execution stays, a positive test is stored with its runner's status, a negative one with the reverse, with an error both as failed; the message is the error's or the runner's, below the stored one |
| JobOutcome.OutputIsKept | pkg/executor/client/job.go:373-403 | the stored output is the runner's, followed by a remark if the outcome was reversed, and by one on an abort or timeout |
| JobOutcome.Abort | pkg/executor/client/job.go:649-660 | stores an abort, or a failure if the job could not be deleted |
| JobOutcome.TimeOut | pkg/executor/client/job.go:662-678 | stores a timeout |
| JobOutcome.StopAfterPod | pkg/executor/client/job.go:310-315 | stores the pod's outcome through the execution's own result object |
| JobOutcome.CheckExecutionPodStatus | pkg/triggers/watcher.go:281-314 | a running or queued execution fails with the first failed pod's message; others are left alone |
| JobOutcome.FirstFailedPod | pkg/triggers/watcher.go:288-296 | the message is that of the first failed pod |
| JobOutcome.StoredByPodCheck | pkg/triggers/watcher.go:298-311 | a running or queued execution fails with that message; an earlier message is stored twice before it |
| JobOutcome.StoreUnread | pkg/scheduler/test_scheduler.go:99-108 | the result is stored whatever was stored before, with the error messages joined |
| JobOutcome.GiveUp | pkg/reconciler/reconciler.go:140-146 | an execution that is running is given a failed result in place of its own; others are left alone |
| JobOutcome.StoredByOthers | pkg/executor/client/job.go:648-678 | the exact result that an abort, a failed abort, a timeout, an unread store and the reconciler leave, in a repository that works |
| JobOutcome.SealedStays | pkg/executor/client/job.go:368-370 | over any sequence of whole calls, a stored abort or timeout stays unchanged throughout if and only if no writer that does not read first stores something else |
| JobOutcome.SealedThroughoutIff | pkg/executor/client/job.go:368-370 | it stays one of the two throughout if and only if such writers store nothing but aborts and timeouts |
| JobOutcome.FirstSealWins | pkg/executor/client/job.go:360-414 | in every order of whole calls, the first abort or timeout stored stays the result from then on, under exactly that condition |
| JobOutcome.SchedulerOverwritesAbort | pkg/scheduler/test_scheduler.go:99-108 | an abort is stored, the pod's stop backs off, and the scheduler then stores the pod's outcome over it: three whole calls, none overlapping |
| JobOutcome.MessageIsExtendedIff | pkg/repository/result/mongo.go:397-426 | a call extends the stored error message unless it is the reconciler's on a running execution whose message its own does not extend |
| JobOutcome.ErrorMessagesAccumulate | pkg/repository/result/mongo.go:397-426 | over any calls without that one the stored error message is only ever extended |
| JobOutcome.NegativeTestPassesByFailing | pkg/executor/client/job.go:373-395 | a negative test is stored as passed if and only if its runner failed and no error was passed, and as failed otherwise |
| JobOutcome.SealsComeFrom | pkg/executor/client/job.go:360-414 | only an abort, a timeout, a sealed result of a positive test or a sealed result stored without reading can seal an execution |
| JobOutcomeSplit.AloneIsAtomic | pkg/executor/client/job.go:360-414 | a writer whose read, find and write nobody comes between does what the whole call does |
| JobOutcomeSplit.OnlyUnreadGetInFlight | pkg/executor/client/job.go:368-370 | a writer that reads an abort or timeout gives up, so only one that does not read gets on the way to a write |
| JobOutcomeSplit.OverwrittenIff | pkg/repository/result/mongo.go:397-426 | in every interleaving of reads, finds and writes, a stored abort or timeout is overwritten if and only if some writer writes after that moment that read before it or does not read; otherwise it stays |
| JobOutcomeSplit.CanBeUnsealedIff | pkg/executor/client/job.go:360-414 | without a further call that stores another outcome unread, an aborted or timed-out execution can still become another one if and only if a writer with another outcome is in flight |
| JobOutcomeSplit.UnreadAlwaysUnseals | pkg/scheduler/test_scheduler.go:99-108 | from every state, one further call that stores another outcome unread can turn the execution into that |
| JobOutcomeSplit.PodOverwritesAbort | pkg/executor/client/job.go:361-411 | a run in which the execution was aborted and ends as passed |
| Reconciler.WhatCounts | pkg/reconciler/reconciler.go:168-196 | only the stored result of a test with an execution counts, and which of its statuses are active, stopped and failed |
| Reconciler.Inspect | pkg/reconciler/reconciler.go:166-199 | the labelled loops compute the look at the flattened entries |
| Reconciler.LookMeaning | pkg/reconciler/reconciler.go:166-199 | the look is decided by the first entry that can end it, or by whether any test failed |
| Reconciler.LeftAloneIff | pkg/reconciler/reconciler.go:180-182 | a readable suite is left alone if and only if a running or queued test precedes every aborted or timed-out one |
| Reconciler.FirstStopDecides | pkg/reconciler/reconciler.go:188-196 | otherwise the first aborted or timed-out test decides the status |
| Reconciler.OtherwiseFailedOrPassed | pkg/reconciler/reconciler.go:184-186 | with neither, the suite failed if and only if a test did |
| Reconciler.Settle | pkg/reconciler/reconciler.go:201-212 | which embedded executions are rewritten, and to what |
| Reconciler.DecisionIsFinal | pkg/reconciler/reconciler.go:166-201 | no suite is given the status running |
| Reconciler.NothingLooksRunning | pkg/reconciler/reconciler.go:201-212 | in a suite that gets its decided status, every embedded execution that looks running gets that status and an error in place of its result, and the others are untouched |
| Reconciler.ProcessTestSuites | pkg/reconciler/reconciler.go:153-220 | suites are processed one by one up to the first cancellation, read error or failed update: each is left alone or stored with its decided status, and nothing after it changes |
| Agent.StepKeepsInv | pkg/agent/agent.go:213-282 | each step of receiver, workers and sender keeps the account of all commands |
| Agent.EveryCommandIsSomewhere | pkg/agent/agent.go:98-99 | over any number of connections, each buffered command is in exactly one place |
| Agent.AtMostOnce | pkg/agent/agent.go:263-282 | each command is executed at most once and answered to a stream at most once |
| Agent.ResponsesMatch | pkg/agent/agent.go:284-330 | each response handed to a stream carries its command's message id, and is the health answer, the report of a bad URL, or what the handler answered to that command |
| Agent.BuffersKeepOrder | pkg/agent/agent.go:98-99 | both buffers stay within five entries a worker, commands are taken in the order in which they came, and responses are handed over in the order of their buffer |
| Agent.SomebodyCanMove | pkg/agent/agent.go:213-282 | on a connection that was not cancelled, as long as a command was neither sent nor lost, a worker or the sender can take a step with it |
| Agent.LossesHaveCauses | pkg/agent/agent.go:153-176 | one response is lost per failed send, others only after a cancellation |
| Agent.NothingLostWithoutCancellation | pkg/agent/agent.go:213-282 | without a cancellation or a failed send, nothing is lost |
| LogParser.MoreSevereIsNotAnOrder | pkg/executor/output/parser.go:320-335 | exactly which pairs of types are each more severe than the other |
| LogParser.BestIsLatestOfTheMostSevere | pkg/executor/output/parser.go:264-300 | the fold is the latest result that counts, else the latest error, although the relation is no order |
| LogParser.DecidingContainerLogLine | pkg/executor/output/parser.go:264-300 | the loop computes that fold over the usable entries |
| LogParser.ContainerDecisionIsLexicographicMaximum | pkg/executor/output/parser.go:264-300 | the deciding container line is the latest usable result, else the latest error, else none |
| LogParser.UnusableEntriesDoNotMatter | pkg/executor/output/parser.go:264-300 | deleting unusable result entries never changes the answer |
| LogParser.ParseLogs | pkg/executor/output/parser.go:121-173 | the entries made of each line |
| LogParser.MessageMeaning | pkg/executor/output/parser.go:303-312 | a result says its output if the test passed, its error message if it failed, and else its status |
| LogParser.OutputGrows | pkg/executor/output/parser.go:112-173 | what each line of a log adds to the returned output |
| LogParser.ParsedResults | pkg/executor/output/parser.go:121-173 | no result entry without a result, and none with a time |
| LogParser.DecidingLogLine | pkg/executor/output/parser.go:227-259 | the loop computes the fold, and falls back to the last entry when the winner has no content |
| LogParser.ParseRunnerOutput | pkg/executor/output/parser.go:46-74 | the result of the deciding entry, with the collected log as output |
| LogParser.BestIsLastResult | pkg/executor/output/parser.go:227-259 | whatever lines, events and errors surround it, the last result that is not running wins |
| LogParser.RunnerReturnsLastResult | pkg/executor/output/parser.go:39-75 | that result is returned whenever it passed with an output, failed with an error, or has another status |
| LogParser.LastResultReturnedIff | pkg/executor/output/parser.go:39-75 | the last result is returned if and only if that is so or the last line that makes an entry agrees with it |
| LogParser.LastEntryDecides | pkg/executor/output/parser.go:252-257 | with an empty message, the entry of the last line that makes one decides, whatever it is |
| LogParser.SilentPassIsLost | pkg/executor/output/parser.go:252-257 | a passed test without output that is reported as failed |
| LogParser.LatestErrorReturned | pkg/executor/output/parser.go:39-75 | a log without a final result, but with an error, is a failure with the latest error |
| LogParser.WithoutResult | pkg/executor/output/parser.go:227-259 | a log without a final result is a failure, unless its last entry is a running result |
| LogParser.OnlyRunningResults | pkg/executor/output/parser.go:227-259 | a log of running results only is returned as running |
| LogParser.ParseContainerLogs | pkg/executor/output/parser.go:176-219 | one entry a line, undecodable ones as plain text |
| LogParser.ParseContainerOutput | pkg/executor/output/parser.go:81-109 | the result of the deciding line if there is one, and the collected log |
| LogParser.ContainerReturnsLastResult | pkg/executor/output/parser.go:81-109 | a container's outcome is the last usable result in the log, whatever the times of the lines |
| LogParser.ContainerWithoutResult | pkg/executor/output/parser.go:81-109 | without a usable result, the outcome is a failure with the latest error, and none at all without an error |
| LogParser.ContainerOutputGrows | pkg/executor/output/parser.go:176-219 | what each line of a container log adds to the output |
| SecretMasking.Index | pkg/executor/env/manager.go:283 | the first occurrence, as bytes.ReplaceAll looks for it |
| SecretMasking.ReplaceAll | pkg/executor/env/manager.go:283 | bytes.ReplaceAll as the leftmost occurrences that do not overlap |
| SecretMasking.MaskCovers | pkg/executor/env/manager.go:283 | masking keeps the length and changes bytes to stars only |
| SecretMasking.MaskedIff | pkg/executor/env/manager.go:283 | a byte is a star afterwards if and only if it was one or lies within an occurrence that is replaced: these do not overlap, and every other occurrence overlaps an earlier one of them |
| SecretMasking.MaskRemoves | pkg/executor/env/manager.go:283 | a secret that neither begins nor ends with a star does not occur in its own masking |
| SecretMasking.MaskingWorksIff | pkg/executor/env/manager.go:283 | masking one secret works on every input if and only if the secret neither begins nor ends with a star |
| SecretMasking.CoverKeepsAbsence | pkg/executor/env/manager.go:278-284 | masking another secret never brings a star-free one back |
| SecretMasking.LongerMaskKeepsAbsence | pkg/executor/env/manager.go:278-284 | masking a secret that is longer than every star run of another does not bring that one back |
| SecretMasking.MaskingInCompanyWorksIff | pkg/executor/env/manager.go:278-284 | a secret stays away under the mask of a further one-byte secret on every input if and only if it has no star |
| SecretMasking.PutBack | pkg/executor/env/manager.go:278-284 | if another secret fits into the stars of this one, an input in which it stands there comes out of both masks as this very secret |
| SecretMasking.OnlyHiddenComesBack | pkg/executor/env/manager.go:278-284 | whatever the mask of another secret brings back, it brings back in that way |
| SecretMasking.TwoSecretsAreSafeIff | pkg/executor/env/manager.go:278-284 | two secrets that neither begin nor end with a star are both absent from every output, in either order of masking, if and only if neither can hide in the other's stars |
| SecretMasking.StarFreeMustNotAppear | pkg/executor/env/manager.go:278-284 | what follows covers every star-free non-empty secret, whatever the others are |
| SecretMasking.SafeSecretsAreGone | pkg/executor/env/manager.go:273-287 | in whatever order the variables are taken, none of these secrets is left |
| SecretMasking.ChangedOnlyOverSecrets | pkg/executor/env/manager.go:273-287 | a byte is changed only under the mask of a variable that is a secret, where that secret stood but for its own stars |
| SecretMasking.MaskedMeansOccurs | pkg/executor/env/manager.go:283 | so under the mask of a star-free secret, the input had that secret |
| SecretMasking.NothingToMask | pkg/executor/env/manager.go:273-287 | an input in which no non-empty secret occurs is not changed at all |
| SecretMasking.Manager.ObfuscateSecrets | pkg/executor/env/manager.go:273-287 | the output is the input with the secrets masked one after the other, in some order; for every order it has the input's length, changes only bytes under the mask of a secret, is the input if no secret occurs in it or there are no variables, and contains no secret that neither begins nor ends with a star and that no other secret can bring back |
| SecretMasking.JsonWrapWriter.Write | pkg/executor/output/writer.go:25-30 | reports the number of bytes it was given and writes one line, masked as above if there are variables and as given otherwise |
| EnvExchange.NumberedIsInjective | pkg/executor/env/manager.go:80-81 | different numbers give different names |
| EnvExchange.PrepareSecrets | pkg/executor/env/manager.go:61-142 | for some order of each map, exactly these entries in this sequence, both series counted from 1 |
| EnvExchange.PrepareEnvs | pkg/executor/env/manager.go:145-192 | exactly the entries of envs, plain variables and config map references |
| EnvExchange.Publish | pkg/executor/client/job.go:683-753 | what both together add to the job's variables, in any iteration order, is what the round trips below start from |
| EnvExchange.UnderOwnName | pkg/executor/env/manager.go:61-192 | under a name of the user's there is the secret, config map or literal that the user gave it to, and nothing else |
| EnvExchange.UnderNumber | pkg/executor/env/manager.go:94-126 | under a number there are the secret env and the secret variable counted with it, and nothing else |
| EnvExchange.GetSecretEnvs | pkg/executor/env/manager.go:230-245 | terminates, and returns the numbered names up to the first that is not set |
| EnvExchange.GetReferenceVars | pkg/executor/env/manager.go:248-270 | every variable whose reserved name is set takes its value, the others stay |
| EnvExchange.UnderSecretName | pkg/executor/env/manager.go:128-138 | a reserved secret name carries its variable's secret reference and nothing else |
| EnvExchange.UnderConfigMapName | pkg/executor/env/manager.go:177-187 | a reserved config map name carries its variable's config map reference and nothing else |
| EnvExchange.ReferenceVarsRoundTrip | pkg/executor/env/manager.go:248-270 | in the pod every variable gets back the value of its secret or config map, others keep their own |
| EnvExchange.SecretEnvsRoundTripIff | pkg/executor/env/manager.go:94-126 | of both series only as many come back as the longer has, so all come back if and only if one is empty |
| EnvExchange.SecretEnvsComeBack | pkg/executor/env/manager.go:230-245 | without secret variables every secret env comes back with its value |

## Left out

- Kubernetes, MongoDB, NATS, MinIO, gRPC and HTTP themselves: only the tables, documents, channels and errors the code relies on are modelled.
- Informers and per-resource event handlers of `pkg/triggers/watcher.go`: repeated plumbing.
- The context-done branch of `runWatcher`: it receives from the stop channel and blocks; the model covers verdicts received before the context ends.
- The agent's event loop and log-stream loops, the 30-second send timeout and the 5-minute receive timeout as times: a timeout is a failed send, or a cancellation.
- The consumer that stops reading after a cancellation, and `SendRequests` blocked on a full queue after one: the code guarantees no liveness there.
- ExecFn's use of its context: reduced to whether the context was cancelled when it ended.
- Job specifications, templates, mappers, migrations, and `PrepareGitCredentials`: field copying.
- `ProcessTests` of the reconciler but for what it writes (`JobOutcome.GiveUp`), and `runAfterEachStep`, `timeoutCheck` of the scheduler: no loop or state of their own worth a property.
- JSON decoding and encoding and the splitting of logs into lines: the parser's models start from decoded lines, and the encoder never fails.
- End times, durations, step outputs, metrics and notifications that nothing branches on.
- LeaseElection.BoundedOverlap: takes TryAcquire as one atomic step under one clock, and instances with distinct ids; LeaseSplitStep shows what remains without that. The database's rounding of times to milliseconds is not modelled.
- LeaseElection.AtMostTwoIff: the bound is exact for times kept in nanoseconds; the database keeps milliseconds.
- LeaseElection.StepKeepsInv: lets an instance that crashed join again under its old id, which allows more runs than the code has.
- LeaseSplitStep.EveryGrantIsJustified: does not bound overlaps, because none can be bounded there.
- TestSuiteStep.ExecuteTestStep: covers a concurrency level that is not negative. That the schedule does not matter is promised only where the batch's executions have distinct non-empty ids, runs answer for no other entry and nothing is cancelled, which is what joining by id relies on.
- TestSuiteOutcome.PassedIff: needs the same of each executed batch; without it the run over all batches is still the one of `TestSuiteRun.RunSteps`, with what the batch really ended with.
- TestSuiteStep.DelayWithAbortionCheck: whether the delay was aborted is an input; the timer and the bus subscription are not modelled.
- TestSuiteRun.RunSteps: the event waiting at a batch's turn and the success of its save are inputs; errors of the update before a batch change nothing and are not modelled.
- Emitter.Emitter.UpdateListeners: needs the sanitized names of each list to tell its listeners apart, across kinds too, since they are queue names; subscriptions of others in the same table, `Register`, `Listen` and errors of draining are not modelled.
- TriggerStatus.CheckForRunning: what the repository says about an id is the same for all its occurrences within one pass, and ids added by another goroutine in the middle of a pass are not modelled.
- JobOutcome.StopExecution: is one atomic step; JobOutcomeSplit takes its repository operations apart.
- LogParser.ParseRunnerOutput: covers logs with at least one byte; the empty input is an error before any parsing. Results in runner logs are required to have a status, which the code dereferences.
- SecretMasking.Manager.ObfuscateSecrets: for three and more secrets, and beside secrets that begin or end with a star, the condition is sufficient; exact ones are proved for one secret, for two that neither begin nor end with a star, and for any secret with a one-byte companion.
- EnvExchange.ReferenceVarsRoundTrip: needs the user's names not to collide with the reserved ones; which of several equally named entries the pod takes is left open, and a variable's type is taken as present.
- EnvExchange.Publish: leaves out the runner, proxy and git entries that the job adds; the round trips allow any further variables in the pod under names that are not reserved.
