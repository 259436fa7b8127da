# Verified model of the task, workflow and chat-routing core

This project models, in Dafny 4.11, the parts of the multi-agent workspace whose correctness depends on more than one
function or more than one process, and proves properties of them over all inputs, all runs or all interleavings.

* **Task queue** (`TaskQueue`, `QueueRuns`). Workers claim, renew, settle and recover rows of the queue table by
  compare-and-set on a fresh token. Every SQL command is one atomic step `Apply` of the table; the methods of
  `TaskService` are proved against it. `enqueue` and `fail` are a SELECT and a later write by primary key that does not
  look again, `claim_next` a SELECT followed by one UPDATE per candidate that reuses the old clock reading, all with any
  commands of other sessions in between. A run is any sequence of commands.
* **Execution lease and crash recovery** (`TaskLease`, `LeaseRuns`, `WorkflowCrash`, `TaskRecovery`, `RestartDispatch`).
  The same protocol on the `Task` row, with the cancel and resume endpoints, status writes by its executor or by anybody
  else, executors that start without a claim, restarts and the sweeps; the workflow executor as a program counter over
  its database commits that may stop anywhere, among writes of other sessions that may commit at any time; and what a
  restarted process dispatches.
* **Workflow graphs** (`DependencyGraph`, `StringOrder`, `KahnCounting`, `WorkflowNodes`, `TopologicalSort`,
  `SortErrors`, `LayoutOrder`, `DagLayout`, `LayoutMeaning`, `DagTheorems`, `DagAgreement`, `DagExecution`). The
  backend's layered Kahn sort over a list in which repeated dependencies count, the canvas's tolerant second
  implementation, their comparison, and the execution of the layers with any interleaving inside a layer. The reference
  is graph-theoretic: walks, cycles, longest chains.
* **Rate limit** (`RateLimit`, `RateLimitRuns`, `RateLimitBounds`). A fixed window in Redis with a key expiry, a pruned
  sliding window in memory, and the switch between them under any of five faults of a check.
* **Mentions and relays** (`Dedup`, `MentionScan`, `MentionTheorems`, `MentionMeaning`, `MentionTables`, `JsonInts`,
  `RelayChain`, `RelayMeaning`). The backend's and the browser's mention scanners, a description of a scan that mentions
  neither, the JSON text in which a relay chain is stored, and the chain previewed while typing.
* **Task list in the browser** (`TaskMerge`, `MergeMeaning`, `TaskConvergence`). Status events and snapshots merged by
  time and rank.
* **Worker stage** (`WorkerCalls`, `WorkerSubtasks`, `WorkerRecords`) and **model fallback** (`ModelFallback`).

The methods are proved against functions of their inputs or of the old state. What those functions promise is stated
beside them once more on the data alone, with every status, expiry, code point and limit written out: in
`RestartDispatch`, `SortErrors`, `LayoutMeaning`, `MentionMeaning`, `RelayMeaning`, `MergeMeaning` and `WorkerRecords`,
and in lemmas named `...Exactly`, `...Leaves` and `...Means` next to the others.

`Wrappers` holds shared result types. Points in time are `real` seconds; tokens are opaque numbers of which every
draw is new; texts are sequences of characters. The outcomes of model calls, of workflow nodes and of providers, the
clock, lower-casing, trimming, date parsing and provider names are parameters over which every statement quantifies.

## Findings

The following promises hold of the code only under a condition. Each is given with the condition under which it holds,
as an equivalence for all inputs or runs, and, where it can fail, with an input or run on which it does; the last one is
a bound that is attained.

* *One executor per task.* An executor is live while the lease promised to it has not run out and it has not written
  its last terminal status, or, if it started without a claim, until it has ended. When a claim succeeds, an earlier
  executor is live if and only if the row carries an unexpired lease, or an unexpired lease was taken off the row by a
  claim, a reset or a terminal write that was not its executor's, and has not run out since, or an executor started
  without a claim and has not ended (`LeaseRuns.ClaimSplitsIff`). All of this happens. The cancel endpoint leaves the
  token on the row (`backend/app/api/v1/endpoints/tasks.py:257`) and the resume endpoint makes a cancelled task pending
  without looking at the lease (`backend/app/api/v1/endpoints/task_replay.py:163-181`;
  `LeaseRuns.CancelThenResumeSplits`). The reject endpoint fails a task that its executor is still waiting with, which
  clears the lease (`backend/app/api/v1/endpoints/tasks.py:352-357`), and a failed task can be resumed too
  (`LeaseRuns.RejectThenResumeSplits`). A workflow executor goes on without a claim when the task is not pending
  (`backend/app/services/dag_engine.py:450-459`), and a restart takes the running task without lease for abandoned
  (`LeaseRuns.JoinThenRestartSplits`). A message to an integration node makes a pending task, enqueues it for the
  workers, and starts the node, which never claims it (`backend/app/core/message_hub.py:532-547`,
  `LeaseRuns.NodeDispatchSplits`). Were the endpoints and sweeps to check for an unexpired lease when they commit, and
  nobody to start without a claim, the promise would hold (`LeaseRuns.NoSplitBrain`). An earlier token is refused in any
  case (`LeaseRuns.EarlierTokensAreRefused`).
* *A workflow run ends as its task.* At every point of a run of the executor, other sessions and sweeps, task and run
  agree if and only if no write clashes: none gives the task a terminal status other than the one its ended run stands
  for, and none ends the run otherwise than its task has ended (`WorkflowCrash.NeverDisagreesIff`); they disagree in the
  end if and only if a write clashed and nothing was changed since (`WorkflowCrash.DisagreesIff`), and no sweep repairs
  that. Writes do clash. A resumed workflow is completed by the orchestrator while its run stays failed
  (`WorkflowCrash.ResumedRunDisagrees`); a cancellation that read the running task commits after the end
  (`backend/app/api/v1/endpoints/tasks.py:247-260`, `WorkflowCrash.LateCancelDisagrees`); and after a sweep that
  writes the run the executor alone can go on to a disagreeing stop, if and only if the sweep comes before the executor
  is on its way to failure or while the task is completed (`WorkflowCrash.SweepAllowsDisagreementIff`), be it a
  cancelled task (`WorkflowCrash.CancelledRunDisagrees`) or a stalled executor
  (`WorkflowCrash.RevivedExecutorDisagrees`).
* *A stopped workflow executor is repaired.* Once the lease on the row has expired, a sweep makes task and run end alike
  if and only if no write clashed for good, the sweep itself does not clash with the end of the run, and the task is
  neither pending nor active without a lease (`WorkflowCrash.RepairedIff`). A task becomes active without a lease by an
  approval of one that was cancelled before its executor started (`WorkflowCrash.CancelledBeforeStartStaysActive`), by
  that of one approval node after another of its layer was rejected (`backend/app/services/dag_engine.py:273-303`,
  `WorkflowCrash.ApprovedWhileDraining`), or by the approval endpoint's own write when it commits after the end
  (`backend/app/api/v1/endpoints/tasks.py:347-352`, `WorkflowCrash.LateApprovalReactivates`). No sweep ever touches such
  a task; a restart makes it pending.
* *Completed and dead queue rows stay.* Apart from their deletion by a resumption, which the runs do not contain, they
  do through a run if and only if no `enqueue` that had read the row while it was leased and no `fail` that lets the
  task be tried again commits in it (`QueueRuns.TerminalUntilRevived`). Both write by primary key whatever the row has
  become (`backend/app/services/task_service.py:29-45` and `142-155`), and the completed row can be claimed again
  (`QueueRuns.StaleEnqueueRevives`, `QueueRuns.StaleFailRevives`). For the same reason a worker that renews in time owns
  its row at every point of a run if and only if no such `enqueue` and no `fail` of an earlier owner commits in it
  (`QueueRuns.OwnerKeepsRowIff`).
* *Task updates converge.* For a task in the list they do (`TaskConvergence.OrderIsIrrelevant`). A task that is not in
  the list ends at the highest level said from the first snapshot on that holds it, which is the highest of all if and
  only if every level said before is matched by one said later (`TaskConvergence.EndsAtHighestSince`,
  `TaskConvergence.NothingLostIff`); an earlier event can be lost (`TaskConvergence.EarlyEventIsLost`). Applying a
  snapshot again changes nothing if and only if no entry that it appended is changed by merging it with the snapshot's
  first entry of its id (`TaskConvergence.SnapshotTwiceIff`), which can fail when an id is repeated
  (`TaskConvergence.RepeatedIdChangesTwice`).
* *The chain previewed is the chain stored.* The two sides do not scan with one table: the browser lists only part of
  what the backend lists, which has roles, model names and more aliases too, and in another order
  (`backend/app/core/message_hub.py:245` and `366-381`, `frontend/src/lib/mention-utils.ts:83-120`). Agents may share a
  term. A table and one that lists only part of it read a text in the same way if and only if, for every name that the
  larger one picks, the first to bear it in the smaller one where it fits is the target picked
  (`MentionTables.ReadingsAgreeIff`). Then the preview is what is stored if and only if the first mention is no node or
  fewer than two agents are mentioned (`RelayChain.PreviewOfListedNamesIff`), since a message that mentions a node first
  goes to the node and stores no chain (`backend/app/core/message_hub.py:257-259`,
  `RelayChain.NodeFirstIsPreviewedOnly`). That the browser lacks a name shows where an agent mentioned by its model is
  stored and not previewed (`RelayChain.ModelNameIsStoredOnly`), that the order matters where two agents share a name
  (`RelayChain.SharedNameDiffers`).
* *Canvas and backend show the same layers.* The canvas reads only `dependencies` (`frontend/src/lib/dag-layout.ts:18`),
  the backend also its alias `depends_on` (`backend/app/services/dag_engine.py:103-107`). On an accepted list without
  cycles they agree if and only if no node declares dependencies under the alias only
  (`DagAgreement.AcceptedListsAgree`, `DagAgreement.AliasHidesLayers`).
* *Canvas and backend show the same cycle.* The canvas ignores self-dependencies too. Its last layer is the backend's
  named set if and only if every node that depends on itself or uses the alias, and leads to a cycle, leads to one by
  what the canvas reads (`DagAgreement.CyclicListsAgree`, `DagAgreement.AliasHidesCycle`); without the alias, every
  self-dependent node has to reach a longer cycle (`DagAgreement.SelfLoopsDecide`).
* *Both worker stages fail alike.* They do exactly when no call fails before the first subtask without an agent
  (`WorkerSubtasks.ParallelAgreesIff`), in particular when all agents are present. What the sequential stage has told
  the user is a prefix of what the parallel one tells exactly when all agents are present or it has told nothing
  (`WorkerSubtasks.SequentialMessagesArePrefixIff`).
* *The limit per minute.* A process that switches between Redis and memory admits at most three times the limit
  (`RateLimitBounds.RateBounds`), and for every positive limit some run attains that
  (`RateLimitBounds.FactorThreeIsReached`).

## Model

| member | source | states |
|---|---|---|
| `TaskQueue.TaskService.EnqueueTask` | backend/app/services/task_service.py:21-47 | reads the row of the task, and after any commands of other sessions inserts a new one if it saw none, re-queues without looking again the live one it saw, and leaves a terminal one alone; an insertion fails when the task has a row by then |
| `TaskQueue.EnqueueLeaves` | backend/app/services/task_service.py:29-47 | field by field: a row seen leased is queued again without its lease, one seen queued only becomes available, one seen completed or dead is left alone; a new row is queued with no attempt made |
| `TaskQueue.SelectCandidates` | backend/app/services/task_service.py:50-67 | exactly the first ten claimable rows of pending tasks by priority, then id; whatever is left out comes later |
| `TaskQueue.SelectionMeans` | backend/app/services/task_service.py:50-67 | a selected row is of a pending task, available, below its attempt limit, and queued or with an expiry before the clock; such a row is left out only if ten others with higher priority, or equal priority and smaller id, are selected; the selection is in that order |
| `TaskQueue.TaskService.ClaimNext` | backend/app/services/task_service.py:49-93 | claims the first candidate that is still claimable when its UPDATE runs, with commands of others in between; gives up only after the last |
| `TaskQueue.ClaimedIsFirst` | backend/app/services/task_service.py:68-92 | what is claimed is the candidate of the last attempt, whose row then has attempts left and is queued or carries a lease that ended before the SELECT; no row met by an earlier attempt is so; with nothing claimed all were tried |
| `TaskQueue.TaskService.TryClaim` | backend/app/services/task_service.py:69-90 | one compare-and-set with the stale clock; succeeds iff the row is claimable, and then the token owns it and the attempt is counted |
| `TaskQueue.TaskService.RenewLease` | backend/app/services/task_service.py:95-120 | extends the lease iff the token owns the row, else changes nothing |
| `TaskQueue.TaskService.CompleteItem` | backend/app/services/task_service.py:177-193 | completes the row and clears the lease iff the token owns it |
| `TaskQueue.TaskService.FailItem` | backend/app/services/task_service.py:125-155 | reads the row and, if the token owns it, decides to re-queue it with the delay or to kill it at the attempt limit or without retry; after any commands of other sessions it writes that by primary key alone; returns the status written |
| `TaskQueue.FailLeaves` | backend/app/services/task_service.py:136-155 | field by field: the first 4000 characters of the error; queued and available after the delay if a retry is asked for and the row read had attempts left, otherwise dead; no lease; nothing else and no other row changes |
| `TaskQueue.TaskService.RecoverExpired` | backend/app/services/task_service.py:157-175 | re-queues exactly the rows with an expired lease and attempts left, and counts them |
| `TaskQueue.RecoverLeaves` | backend/app/services/task_service.py:157-175 | field by field: exactly a leased row with an expiry before the clock and attempts left becomes queued, available now and without lease |
| `TaskQueue.ClaimNextIsARun` | backend/app/services/task_service.py:49-93 | a whole `claim_next` with its interleaving is a run of commands, so every theorem about runs covers it |
| `QueueRuns.RunKeepsTable` | backend/app/services/task_service.py:29-193 | every run keeps: leased iff token set iff expiry set, and attempts within the limit |
| `QueueRuns.ClaimsAreCounted` | backend/app/services/task_service.py:68-92 | in every run the attempt count grows by exactly the number of successful claims |
| `QueueRuns.ReachableTable` | backend/app/services/task_service.py:29-193 | every reachable table satisfies the row invariant; the claims ever made on a row equal its attempt count and never exceed its limit |
| `QueueRuns.TerminalRowsAbsorb` | backend/app/services/task_service.py:68-193 | a completed or dead row is unchanged by every later command except the write of an enqueue or a fail, the expired-lease arm of the claim included |
| `QueueRuns.TerminalStaysIff` | backend/app/services/task_service.py:29-193 | from any table, a terminal row stays terminal through a run iff no enqueue that saw it leased and no retrying fail commits in it |
| `QueueRuns.NotStoredWithoutClaim` | backend/app/services/task_service.py:69-88 | a token gets into a row only by the claim that drew it |
| `QueueRuns.LostTokenStaysLost` | backend/app/services/task_service.py:49-93 | a token that stops being stored is never stored again, in any row |
| `QueueRuns.LostTokenIsRefused` | backend/app/services/task_service.py:95-155 | every later renewal and completion that presents it changes no row at all, no later read of a fail finds a row it owns, and a fail that still commits had read the row before it was lost |
| `QueueRuns.SettledAtMostOnce` | backend/app/services/task_service.py:122-155 | in every run each claim is settled at most once, except by a fail that commits after its token has lost the row |
| `QueueRuns.TerminalAtMostOnce` | backend/app/services/task_service.py:122-193 | a row that is terminal at one point of a run is the same row at every later point, if no enqueue and no fail of it commits in between |
| `QueueRuns.TerminalUntilRevived` | backend/app/services/task_service.py:29-155 | a row terminal at one point is terminal up to a later one iff no enqueue that saw it leased and no retrying fail commits in between |
| `QueueRuns.ReviverReadBefore` | backend/app/services/task_service.py:29-155 | the first write that brings a terminal row back had read it while it was leased, before it became terminal |
| `QueueRuns.StaleEnqueueRevives` | backend/app/api/v1/endpoints/task_replay.py:183-190 | the run insert, claim, complete, late write of an enqueue leaves the completed row queued and claimable |
| `QueueRuns.StaleFailRevives` | backend/app/services/task_service.py:142-155 | the run insert, claim, sweep, claim by another, completion, late write of the first owner's fail leaves the completed row queued and claimable |
| `QueueRuns.LiveOwnerKeepsRow` | backend/app/worker.py:22-76 | an owner that touches its lease within the lease length keeps its row against every sweep and every claim with a stale clock, while nobody overwrites it; only the expiry moves, never backwards |
| `QueueRuns.OwnerKeepsRowIff` | backend/app/worker.py:22-76 | such an owner owns its row at every point of a run iff no enqueue that saw the row leased and no fail of the row commits in it |
| `QueueRuns.LateOwnerLosesRow` | backend/app/services/task_service.py:49-175 | after a claim and any run in which the owner renews in time, a sweep takes the row iff more than was granted has passed since the SELECT of the claim or the latest renewal, and attempts are left |
| `QueueRuns.ExpiredRowIsClaimedIff` | backend/app/services/task_service.py:49-93 | after a claim and any run in which the owner renews in time, another worker's claim takes the row iff the lease ended before that worker's SELECT and attempts are left |
| `QueueRuns.WorkerSettlesItsOwnClaim` | backend/app/worker.py:58-103 | from claim to settlement a live worker settles its own claim, with the status its result calls for, whenever `fail` reads before it commits |
| `TaskLease.TaskStore.ClaimTaskLease` | backend/app/services/task_lease.py:54-108 | succeeds iff the task is pending or running with an expired lease; then the task is running under a token never drawn before for half an hour; each error case changes nothing |
| `TaskLease.TaskStore.ExtendTaskLease` | backend/app/services/task_lease.py:164-185 | extends to half an hour from now iff the task is running or waiting for approval and carries the token; otherwise nothing changes |
| `TaskLease.TaskStore.RecoverExpiredTaskLeases` | backend/app/services/task_lease.py:194-228 | fails exactly the active tasks with an expired lease, and their running workflow runs, and counts them |
| `TaskLease.TaskStore.RecoverOrphanWorkflowRuns` | backend/app/services/task_lease.py:244-272 | settles exactly the running runs of terminal tasks, as the task ended, and counts them |
| `TaskLease.SweepFailsExactly` | backend/app/services/task_lease.py:194-228 | the sweep changes a task iff it is running or waiting for approval with an expiry before the clock: it becomes failed, without lease, with a note behind its result, and its running runs fail; no other run of it changes |
| `TaskLease.WritersLeave` | backend/app/core/orchestrator.py:1350-1358 | a status write clears the lease iff the status is completed or failed; cancelling keeps the lease and changes the status of a task that has not ended, resuming keeps it and makes exactly a pending, failed or cancelled task pending; a restart makes exactly a running task without a lease or with an expired one pending, without lease |
| `TaskLease.SweepSettlesRuns` | backend/app/worker.py:106-121 | after both sweeps a run is running only under a non-terminal task; a run the sweep settled agrees with its task; all others are untouched |
| `TaskLease.SweepIsIdempotent` | backend/app/worker.py:106-121 | a second sweep at the same instant changes neither tasks nor runs |
| `LeaseRuns.StepKeepsInv` | backend/app/services/task_lease.py:69-228 | every step keeps: whoever was ever promised a lease is on the row, has ended the task itself, was taken off the row, or its promise has run out |
| `LeaseRuns.OldTokenStaysOff` | backend/app/services/task_lease.py:69-185 | over every run a token that left the row never comes back, and its promise is never extended |
| `LeaseRuns.EarlierTokensAreRefused` | backend/app/services/task_lease.py:54-185 | after a claim every extension with an earlier token, at any later point, fails and changes nothing |
| `LeaseRuns.ActiveExecutorKeepsLease` | backend/app/services/task_lease.py:118-185 | an executor that extends its lease at most half an hour apart keeps the task under its token, running or waiting for approval as it last wrote, with the expiry exactly half an hour after its latest touch, against every sweep, restart, claim and extension of others |
| `LeaseRuns.ExecutorLosesLeaseIff` | backend/app/services/task_lease.py:54-228 | from its claim on: a sweep fails the task iff more than half an hour has passed since its latest claim or extension, another claim takes it iff moreover the task is running, its own extension succeeds in either status, and one with another token changes nothing |
| `LeaseRuns.ClaimSplitsIff` | backend/app/services/task_lease.py:54-108 | for every run: when a claim succeeds, an earlier executor is live iff the row carries an unexpired lease, or one was taken off by a claim, a reset or a terminal write of somebody else and has not run out, or an executor started without a claim and has not ended |
| `LeaseRuns.NoSplitBrain` | backend/app/services/task_lease.py:69-228 | in a run in which no resumption, reset or foreign terminal write meets an unexpired lease, no earlier token is live when a claim succeeds, and nobody at all if no executor starts without a claim |
| `LeaseRuns.ResumeSplitsExactly` | backend/app/api/v1/endpoints/task_replay.py:163-181 | after a resumption a claim creates a second live executor iff the row still carried an unexpired lease, one dropped earlier has not run out, or an executor without a lease is around |
| `LeaseRuns.CancelThenResumeSplits` | backend/app/api/v1/endpoints/tasks.py:247-260 | the run claim, cancel, resume, claim has two live executors |
| `LeaseRuns.RejectThenResumeSplits` | backend/app/api/v1/endpoints/tasks.py:352-357 | so has the run claim, wait for approval, reject, resume, claim, although no lease is on the row |
| `LeaseRuns.JoinThenRestartSplits` | backend/app/services/dag_engine.py:450-459 | so has the run cancel, start without a claim, wait for approval, approve, restart, claim, although no lease was ever granted |
| `LeaseRuns.NodeDispatchSplits` | backend/app/core/message_hub.py:532-547 | so has the run in which the dispatch to an integration node starts on the pending task and a worker claims it |
| `WorkflowCrash.SweptIsTheSweep` | backend/app/worker.py:106-121 | the sweep in the model of the executor is the sweep over all tasks and runs |
| `WorkflowCrash.CommitsExactly` | backend/app/services/dag_engine.py:441-511 | what every commit of the executor leaves of task and run: a pending task is claimed and any other executed as it is, the terminal commits clear the lease, and the failing one leaves a failed or cancelled task alone |
| `WorkflowCrash.DisagreesIff` | backend/app/services/dag_engine.py:441-511 | for every run of the executor, late writes and sweeps: task and run have ended differently iff some write clashed with the end of the other and nothing was changed since |
| `WorkflowCrash.NeverDisagreesIff` | backend/app/services/dag_engine.py:441-511 | they agree at every point of a run iff no write clashes |
| `WorkflowCrash.RepairedIff` | backend/app/services/task_lease.py:194-272 | for every run and every stop, once the lease has expired: a sweep makes task and run end alike iff the task is neither pending nor active without a lease, no write clashed for good and the sweep does not clash; a second sweep does nothing |
| `WorkflowCrash.SafeRun` | backend/app/services/dag_engine.py:441-511 | in every run without late writes in which sweeps that write come only once the executor is on its way to failure, the run record is written last and then agrees with the task, or a sweep has failed the run of a failed or cancelled task |
| `WorkflowCrash.StoppedExecutorIsRepaired` | backend/app/services/dag_engine.py:441-511 | in such a run every stop is repaired by a sweep once the lease has expired, unless the task was never claimed or is active without a lease; then the sweep touches nothing, and the run is running or a sweep failed it on the way to failure |
| `WorkflowCrash.CancelledBeforeStartStaysActive` | backend/app/services/dag_engine.py:450-454 | an active task without a lease is reached: no sweep touches it, a restart makes it pending |
| `WorkflowCrash.ApprovedWhileDraining` | backend/app/services/dag_engine.py:273-303 | an active task without a lease and with a failed run is reached: one approval node of a layer is rejected, a sweep fails the run, another node is approved |
| `WorkflowCrash.SweepAllowsDisagreementIff` | backend/app/services/dag_engine.py:469-511 | whatever happened before, a sweep that writes the run allows the executor to go on, without any late write of others, to a stop at which task and run disagree for good iff the executor is not yet on its way to failure or the task is completed |
| `WorkflowCrash.DisagreementNeedsEarlySweep` | backend/app/services/dag_engine.py:469-511 | in every run in which they disagree such a sweep came before, or somebody wrote late |
| `WorkflowCrash.DisagreementOnlyBetweenCommits` | backend/app/services/dag_engine.py:469-511 | a terminal task and its swept run agree unless the executor stopped between its terminal commits or somebody wrote late |
| `WorkflowCrash.CancelledRunDisagrees` | backend/app/services/dag_engine.py:472-484 | they do after begin, cancel, sweep and success of all nodes, without any lease expiring, and no later sweep repairs it |
| `WorkflowCrash.RevivedExecutorDisagrees` | backend/app/services/dag_engine.py:472-484 | they do when an executor whose lease was swept comes back and completes the task, and no later sweep repairs it |
| `WorkflowCrash.ResumedRunDisagrees` | backend/app/api/v1/endpoints/task_replay.py:163-194 | a failed workflow that is resumed and completed by another executor leaves a completed task with a failed run, without any sweep |
| `WorkflowCrash.LateCancelDisagrees` | backend/app/api/v1/endpoints/tasks.py:247-260 | a cancellation that commits after the end leaves a cancelled task with a completed run |
| `WorkflowCrash.LateApprovalReactivates` | backend/app/api/v1/endpoints/tasks.py:347-352 | an approval that commits after the end leaves a running task without a lease and a completed run |
| `TaskRecovery.RecoverUnfinishedTasks` | backend/app/core/message_hub.py:111-168 | tasks without a live lease become pending; each workspace dispatches the front of its pending tasks followed by its abandoned ones, as far as there is room beside what still runs |
| `RestartDispatch.DispatchedRow` | backend/app/core/message_hub.py:117-138 | every dispatched task is in the table and is pending, or running without a lease or with an expired one |
| `RestartDispatch.DispatchedIff` | backend/app/core/message_hub.py:117-168 | with ascending ids: a pending task is dispatched iff fewer than three of its workspace are pending before it or still running; an abandoned one iff fewer than three are pending anywhere, abandoned before it, or still running |
| `RestartDispatch.DispatchOrder` | backend/app/core/message_hub.py:117-140 | within a workspace pending tasks are dispatched before abandoned ones, and both as they stand in the table |
| `TaskRecovery.RestartFillsExactly` | backend/app/core/message_hub.py:151-168 | a restart never starts more tasks in a workspace than fit, and leaves room only if all were dispatched |
| `DependencyGraph.LayerIsLongestChain` | backend/app/services/dag_engine.py:143-156 | a node becomes ready in round k iff its longest dependency chain has k links |
| `DependencyGraph.DependencyIsEarlier` | backend/app/services/dag_engine.py:143-156 | every dependency of a node became ready in an earlier round |
| `DependencyGraph.UnplacedReachesCycle` | backend/app/services/dag_engine.py:158-160 | after as many rounds as nodes, what is not placed is exactly what reaches a cycle |
| `DependencyGraph.AllPlacedIffAcyclic` | backend/app/services/dag_engine.py:158-161 | all nodes are placed iff the graph is acyclic |
| `TopologicalSort.BuildNodeMap` | backend/app/services/dag_engine.py:122-129 | the first missing or repeated id in list order is the error; otherwise the map holds every node under its id |
| `TopologicalSort.BuildEdges` | backend/app/services/dag_engine.py:131-141 | in list order the first node with malformed or unknown dependencies decides the error; otherwise the tables reverse and count every dependency with its repetitions |
| `TopologicalSort.FinishLayer` | backend/app/services/dag_engine.py:150-156 | finishing a layer keeps the counts of open dependencies and collects each newly ready node once, although repeated edges decrement repeatedly |
| `TopologicalSort.StillPositive` | backend/app/services/dag_engine.py:158-160 | the ids with open dependencies, ascending |
| `TopologicalSort.TopologicalSort` | backend/app/services/dag_engine.py:115-161 | succeeds on valid input iff the dependencies are acyclic, with the canonical layers; otherwise names exactly the ids from which dependencies lead to a cycle |
| `SortErrors.ErrorsExactly` | backend/app/services/dag_engine.py:115-141 | the result is a missing or repeated id iff some node is the first without an id or with an earlier node's id; malformed dependencies or an unknown dependency iff all ids are good and some node is the first whose dependencies are malformed or not all known: it names that node, and then its first dependency that is the id of no node |
| `DagTheorems.LayerIndexIsLongestChain` | backend/app/services/dag_engine.py:143-161 | every node is in exactly one layer, whose index is the length of its longest dependency chain |
| `DagTheorems.LayeringIgnoresInputOrder` | backend/app/services/dag_engine.py:143-161 | the whole result is the same for every permutation of the input |
| `DagTheorems.CycleErrorIgnoresInputOrder` | backend/app/services/dag_engine.py:158-160 | so is the list of ids in a cycle error |
| `StringOrder.LeqMeans` | backend/app/services/dag_engine.py:146-147 | the order of ids: a prefix comes first, otherwise the smaller code point where two ids first differ |
| `DagLayout.NormalizeDependencies` | frontend/src/lib/dag-layout.ts:14-26 | drops empty, own, unknown and repeated dependencies and keeps the rest in order |
| `DagLayout.IndexById` | frontend/src/lib/dag-layout.ts:38-42 | keeps the first node of each id, in order |
| `DagLayout.FirstsKeepsFirstOccurrences` | frontend/src/lib/dag-layout.ts:38-42 | every node kept stands first among the nodes of its id |
| `LayoutMeaning.FirstsExactly` | frontend/src/lib/dag-layout.ts:38-42 | the nodes kept are those at the places at which no earlier node has the same id, in order |
| `LayoutMeaning.NormalizedExactly` | frontend/src/lib/dag-layout.ts:14-26 | the dependencies kept are those at the places at which a name stands that is not empty, not the node's own, some node's id and not named before, in order |
| `LayoutMeaning.UnplacedExactly` | frontend/src/lib/dag-layout.ts:77-78 | the last layer holds the nodes at the places that were not placed, in order |
| `DagLayout.BuildEdges` | frontend/src/lib/dag-layout.ts:45-55 | the tables reverse and count the surviving dependencies |
| `DagLayout.LayoutDag` | frontend/src/lib/dag-layout.ts:37-81 | on every input: the ready layers are the rounds of the surviving graph, ordered by the last dependency visited and then by input, and everything never ready follows as one last layer in input order |
| `LayoutMeaning.LayerOrderExactly` | frontend/src/lib/dag-layout.ts:57-75 | in the first layer nodes stand in input order; in a later one by the places of their last dependencies in the layer before, and then in input order |
| `LayoutOrder.ReleasedNow` | frontend/src/lib/dag-layout.ts:65-72 | a child whose count reaches zero is released by its last dependency in the frontier |
| `DagTheorems.LayoutIsDetermined` | frontend/src/lib/dag-layout.ts:37-81 | what `layoutDag` promises fixes its result, the order inside each layer included |
| `DagTheorems.LayoutPlacesEveryId` | frontend/src/lib/dag-layout.ts:37-81 | every id is placed, as its first node |
| `DagTheorems.LayoutPlacesNoIdTwice` | frontend/src/lib/dag-layout.ts:37-81 | no id is placed twice |
| `DagTheorems.LayoutDependenciesAreEarlier` | frontend/src/lib/dag-layout.ts:57-75 | a surviving dependency of a node outside the last resort layer is in a strictly earlier layer |
| `DagAgreement.AcceptedListsAgree` | frontend/src/lib/dag-layout.ts:37-81 | on every acyclic list the backend accepts both algorithms give the same number of layers with the same ids iff no node declares dependencies under `depends_on` only |
| `DagAgreement.AliasHidesLayers` | frontend/src/lib/dag-layout.ts:18 | two nodes of which the second depends on the first under the alias: two layers for the backend, one on the canvas |
| `DagTheorems.FallbackIsStuck` | frontend/src/lib/dag-layout.ts:77-78 | the extra layer holds exactly the nodes that reach a cycle of surviving dependencies |
| `DagAgreement.LossesDecide` | frontend/src/lib/dag-layout.ts:14-26 | for any graph and a part of its dependencies: the same nodes are stuck iff every stuck node that lost a dependency stays stuck |
| `DagAgreement.CyclicListsAgree` | frontend/src/lib/dag-layout.ts:77-78 | the extra layer is the backend's named set iff every node that depends on itself or uses the alias, and leads to a cycle, leads to one by what the canvas reads |
| `DagAgreement.SelfLoopsDecide` | frontend/src/lib/dag-layout.ts:22-23 | without the alias that means: iff every self-dependent node also reaches a longer cycle |
| `DagAgreement.AliasHidesCycle` | backend/app/services/dag_engine.py:103-107 | two nodes that depend on each other under the alias: both named by the backend, no extra layer on the canvas |
| `DagExecution.Gather` | backend/app/services/dag_engine.py:404-412 | for every interleaving each node of the layer starts once, finishes once, later, with its own outcome |
| `DagExecution.CollectLayer` | backend/app/services/dag_engine.py:413-419 | the failure raised is the first in list order, whatever finished first; without one all outputs are collected |
| `DagExecution.ExecuteDag` | backend/app/services/dag_engine.py:388-420 | runs the layers in order and stops after the first with a failure, which it raises |
| `DagExecution.StartsAfterItsDependencies` | backend/app/services/dag_engine.py:388-420 | composed with the sort, a node starts only after each dependency has finished with success, and has a larger order index |
| `DagExecution.StartedLayers` | backend/app/services/dag_engine.py:403-417 | after a failure in layer k exactly the nodes of layers 0 to k were started, each once |
| `DagExecution.IndexHasPlace` | backend/app/services/dag_engine.py:402-405 | every order index below the number of nodes belongs to a place in a layer |
| `DagExecution.IndexIsUnique` | backend/app/services/dag_engine.py:402-405 | and to one place only, so the indexes are exactly 0 to n-1 |
| `DagExecution.EveryOutputIsReturned` | backend/app/services/dag_engine.py:418-420 | a successful run returns every node's output under its id |
| `RateLimit.RateLimiter.CheckMemory` | backend/app/services/quota_service.py:195-207 | prunes what is out of the window, admits iff there is room, and records the admission |
| `RateLimit.MemoryCheckMeans` | backend/app/services/quota_service.py:195-207 | what is dropped are the leading timestamps more than 60 seconds old; the check admits iff fewer than the limit are left or there is no limit, and adds its own time only then |
| `RateLimit.RateLimiter.CheckRedis` | backend/app/services/quota_service.py:164-192 | counts in the key of the aligned minute, sets the expiry on the first count, and falls back on each fault with exactly the effect that reached Redis |
| `RateLimit.RateLimiter.Check` | backend/app/services/quota_service.py:210-221 | Redis decides unless it failed, then memory does; no limit for a limit of zero or less |
| `RateLimitRuns.PruningForgetsNothing` | backend/app/services/quota_service.py:195-207 | a call is admitted iff fewer than the limit were admitted in the 60 seconds before it, counted in the entire past |
| `RateLimitRuns.EntirePastDecides` | backend/app/services/quota_service.py:195-207 | the same after every run from an empty bucket, with limits that change from call to call |
| `RateLimitRuns.SlidingWindowBound` | backend/app/services/quota_service.py:195-207 | for a fixed positive limit no closed 60-second interval ever holds more admissions than the limit |
| `RateLimitBounds.CheckIsAStep` | backend/app/services/quota_service.py:210-221 | a check of the process is a step of the model of switching |
| `RateLimitBounds.CurrentCounterIsAlive` | backend/app/services/quota_service.py:174-180 | the expiry never drops the counter of the current minute |
| `RateLimitBounds.TwoMinutesCover` | backend/app/services/quota_service.py:174-175 | a closed 60-second interval holds no more admissions than two neighbouring aligned minutes |
| `RateLimitBounds.StepKeeps` | backend/app/services/quota_service.py:164-221 | every check, by any process and with any fault, keeps the counters above the admissions of their minutes |
| `RateLimitBounds.RateBounds` | backend/app/services/quota_service.py:164-221 | in every run at most the limit per aligned minute in all processes together, twice that in any 60 seconds, and three times that for one process that switches in any way |
| `RateLimitBounds.FactorThreeIsReached` | backend/app/services/quota_service.py:164-221 | for every positive limit a run in which one process admits three times the limit within 60 seconds |
| `Dedup.KeepsFirstOccurrences` | backend/app/core/message_hub.py:183-192 | no repetition, the same elements, each standing at its first occurrence and in that order |
| `MentionScan.BestMentionAt` | backend/app/core/message_hub.py:383-407 | the loop over the candidates computes the best match |
| `MentionScan.BestIsBest` | backend/app/core/message_hub.py:391-407 | no fitting candidate beats the chosen one in length, then kind, and it is the earliest of its equals; nothing is chosen iff nothing fits |
| `MentionScan.MatchMentionAt` | frontend/src/lib/relay-utils.ts:83-100 | the first fitting candidate of the sorted list |
| `MentionScan.ResolveMentionTargets` | backend/app/core/message_hub.py:410-455 | the targets of the backend scan, each once, in order of first occurrence |
| `MentionScan.ExtractMentionEntries` | frontend/src/lib/relay-utils.ts:106-141 | the targets of the browser scan, each once, in order of first occurrence |
| `MentionMeaning.BackendPicks` | backend/app/core/message_hub.py:383-407 | the backend reads a mention of a candidate iff an at sign of either width stands there behind no word character, and the candidate's term follows up to case, with no word character behind a term that ends in one, and no other such candidate is longer, or as long and an agent where this is a node, or of the same kind and earlier in the table |
| `MentionMeaning.BrowserPicks` | frontend/src/lib/relay-utils.ts:83-100 | the browser picks such a candidate iff no other is longer, or as long and earlier in its table |
| `MentionMeaning.ScanExactly` | backend/app/core/message_hub.py:410-455 | a list of matches is the scan iff each is such a mention, each begins behind the end of the one before, and every mention begins inside one of them |
| `MentionTheorems.FirstFitAfterInsert` | frontend/src/lib/relay-utils.ts:80-100 | in a list sorted by length the first fit is the longest fit, the earliest among equals |
| `MentionTheorems.SidesPickTheSame` | frontend/src/lib/relay-utils.ts:83-100 | at every place the sorted search and the best-score search choose the same candidate |
| `MentionTheorems.ScannersAgree` | frontend/src/lib/relay-utils.ts:106-141 | given one table with agents before nodes and lower-casing that keeps lengths, both scanners return the same targets for every text |
| `MentionTheorems.ScanMeetsOnlyTheDescription` | backend/app/core/message_hub.py:429-455 | a list of matches consists of best mentions, without overlap and without missing one, iff it is the scan |
| `MentionTheorems.MaximalMunchIsUnique` | backend/app/core/message_hub.py:429-455 | that description has one solution |
| `MentionTables.MentionCandidates` | backend/app/core/message_hub.py:366-381 | the table holds the trimmed non-empty terms in order, agents before nodes |
| `MentionTables.TableExactly` | backend/app/core/message_hub.py:366-381 | the table has one row for every term that is not blank, in the order of entries and terms, with the term trimmed and its entry's target |
| `MentionTables.TableOrderIsIrrelevant` | frontend/src/lib/mention-utils.ts:83-120 | the sides need not list the entries in the same order when no two agents and no two nodes share a term |
| `MentionTables.ReadingsAgreeIff` | backend/app/core/message_hub.py:366-455 | a scan with a table and one with a table that lists only part of it read a text in the same way, place by place, iff for every name that the larger one picks the first to bear it in the smaller one where it fits is the target picked; terms may be shared |
| `MentionTables.ListedNamesMeanTheSame` | frontend/src/lib/relay-utils.ts:106-141 | then the browser with its table, agents before nodes, finds the targets that the backend finds with its own |
| `MentionTables.NodeFirstDisagrees` | frontend/src/lib/relay-utils.ts:80-100 | with a node before an agent of the same name the scanners disagree |
| `JsonInts.ParseIsTheGrammar` | backend/app/core/relay.py:42-47 | a text is accepted with these integers iff it is an array of integers by the JSON grammar (sections 2, 5 and 6 of RFC 8259) with blanks anywhere between tokens |
| `RelayChain.ParseRelayAgentIds` | backend/app/core/relay.py:33-54 | distinct ids of an all-positive array, at most six; any other text gives no chain |
| `RelayChain.DumpRelayAgentIds` | backend/app/core/relay.py:57-72 | the compact array of the first six distinct positive ids, or nothing below two |
| `RelayMeaning.ChainExactly` | backend/app/core/relay.py:57-72 | a chain holds the first six distinct positive ids in the order of their first occurrences |
| `RelayMeaning.StoredText` | backend/app/core/relay.py:70-72 | a text is stored iff the chain has two ids or more: digits and commas in brackets, and it reads as the chain |
| `RelayMeaning.ReadExactly` | backend/app/core/relay.py:33-54 | a text that is no array of integers gives no chain, one with an id that is not positive neither, any other the chain of its ids |
| `RelayChain.DecimalIsNumeral` | backend/app/core/relay.py:72 | the decimal digits of an id are a numeral without leading zero and have its value |
| `RelayChain.RoundTrip` | backend/app/core/relay.py:33-72 | reading what was stored gives the de-duplicated positive prefix of at most six ids when it has two or more, and nothing otherwise |
| `RelayChain.AnyReadIsClean` | backend/app/core/relay.py:33-54 | whatever is stored, what is read is distinct, positive and at most six long, and survives storing again unless it is a single id |
| `RelayChain.PreviewIsWhatIsStoredIff` | frontend/src/lib/relay-utils.ts:146-153 | what is stored and read back is the chain of the agents found, so preview and storage agree iff the message goes to a node and fewer than two agents are previewed, or it does not and the chains found are equal; when they are equal is said by the next row |
| `RelayChain.PreviewOfListedNamesIff` | frontend/src/lib/relay-utils.ts:146-153 | when for every name the backend picks the first to bear it in the browser's table is the target picked: iff the first mention is no node or fewer than two agents are mentioned |
| `RelayChain.PreviewOnOneTableIff` | frontend/src/lib/relay-utils.ts:146-153 | the same on one table for both sides, ambiguous or not |
| `RelayChain.NodeFirstIsPreviewedOnly` | backend/app/core/message_hub.py:257-271 | a node and then two agents: two agents are previewed and no chain is stored |
| `RelayChain.ModelNameIsStoredOnly` | backend/app/core/message_hub.py:366-381 | an agent mentioned by its model and another by name: two agents are stored and none is previewed |
| `RelayChain.SharedNameDiffers` | frontend/src/lib/mention-utils.ts:83-120 | two agents share a name and the sides list them in different orders: the chain stored is not the one previewed |
| `TaskMerge.SnapshotAlwaysMerges` | frontend/src/lib/task-utils.ts:25-39 | returning the old list when nothing changed is the same as building the new one |
| `TaskMerge.FindAfterSnapshot` | frontend/src/lib/task-utils.ts:22-40 | after a snapshot a task of the list is merged by its rule, and one that was not in the list is as the snapshot has it |
| `MergeMeaning.StatusChangesExactly` | frontend/src/lib/task-utils.ts:8-20 | a status event patches exactly the tasks with its id that are older, or as old and not further on towards their end; field by field |
| `MergeMeaning.SnapshotChangesExactly` | frontend/src/lib/task-utils.ts:22-33 | a snapshot patches each task with its first record of the task's id, if the patched task is newer or as new and not less far on, and leaves all others |
| `MergeMeaning.SnapshotAppendsExactly` | frontend/src/lib/task-utils.ts:34-39 | and appends its records whose id no task of the list has, in its order |
| `TaskMerge.MessageRaisesLevel` | frontend/src/lib/task-utils.ts:13-40 | a message raises the level of a task to the higher of the two |
| `TaskConvergence.EndsAtMaximum` | frontend/src/hooks/use-tasks.ts:138-158 | after any run of full messages the level of a task is the lexicographic maximum of its own and all that was said about it |
| `TaskConvergence.OrderIsIrrelevant` | frontend/src/lib/task-utils.ts:13-40 | so the level reached does not depend on order or repetition of delivery |
| `TaskConvergence.WholeTaskConverges` | frontend/src/lib/task-utils.ts:13-40 | nor does the whole task, when messages are whole and records of one level agree |
| `TaskConvergence.AppearsWithSnapshot` | frontend/src/hooks/use-tasks.ts:138-158 | a task that is not in the list appears iff some snapshot holds it |
| `TaskConvergence.EndsAtHighestSince` | frontend/src/hooks/use-tasks.ts:138-158 | its level is then the highest of those said from the first snapshot on that holds it |
| `TaskConvergence.NothingLostIff` | frontend/src/hooks/use-tasks.ts:138-158 | that is the highest of everything said about it iff every level said before that snapshot is matched or exceeded by one said from it on |
| `TaskConvergence.EarlyEventIsLost` | frontend/src/hooks/use-tasks.ts:138-147 | an event before that snapshot is lost; in the other order it counts |
| `TaskConvergence.TerminalStays` | frontend/src/lib/task-utils.ts:8-20 | a terminal status is never displaced by a non-terminal one of the same time: nothing of the task changes |
| `TaskConvergence.SnapshotTwice` | frontend/src/lib/task-utils.ts:22-40 | applying a snapshot with distinct ids again changes no value, also with partial entries |
| `TaskConvergence.SnapshotTwiceIff` | frontend/src/lib/task-utils.ts:22-40 | in general, with repeated ids too, it changes nothing iff no appended entry is changed by merging it with the snapshot's first entry of its id |
| `TaskConvergence.RepeatedIdChangesTwice` | frontend/src/lib/task-utils.ts:35-37 | with a repeated id that can fail: the first copy overwrites the second |
| `WorkerCalls.EveryRunIsBounded` | backend/app/core/orchestrator.py:1104-1122 | in every run of the semaphore never more calls in flight than permits, no call twice, results as the calls returned, and no run stops with a call missing |
| `WorkerCalls.NeverStuck` | backend/app/core/orchestrator.py:1104-1122 | while a call is missing some event is possible |
| `WorkerCalls.CallAll` | backend/app/core/orchestrator.py:1119-1122 | gathering in any order the semaphore allows returns the outcomes in plan order |
| `WorkerSubtasks.WorkerStage.RunSequential` | backend/app/core/orchestrator.py:943-1051 | results, error, hop, step rows and messages are those of stopping at the first subtask without agent or with a failing call |
| `WorkerSubtasks.WorkerStage.Prepare` | backend/app/core/orchestrator.py:1069-1102 | looks up all agents and opens all steps, and stops at the first missing agent with the hop at the one before |
| `WorkerSubtasks.WorkerStage.Persist` | backend/app/core/orchestrator.py:1124-1168 | writes every outcome down in plan order; the error and the hop are those of the lowest failing subtask |
| `WorkerSubtasks.WorkerStage.RunParallel` | backend/app/core/orchestrator.py:1053-1170 | a missing agent decides before any call; otherwise results, error and hop are the sequential ones |
| `WorkerRecords.SequentialRows` | backend/app/core/orchestrator.py:943-1051 | sequential: the rows of the subtasks before the first that stops are completed, that of a failing call is left running, and there is no other |
| `WorkerRecords.ParallelRows` | backend/app/core/orchestrator.py:1069-1168 | parallel: with all agents every subtask has its row, completed iff its call succeeded and failed iff it did not; without, the rows up to the first missing agent are left running |
| `WorkerRecords.SequentialResult` | backend/app/core/orchestrator.py:943-1051 | sequential: results in plan order with agent and content, or the error of the first subtask that stops; the hop names it, or the one before if it has no agent |
| `WorkerRecords.ParallelResult` | backend/app/core/orchestrator.py:1053-1170 | parallel: a missing agent decides, then the first failing call, and the hop names it; otherwise results in plan order |
| `WorkerRecords.MessagesTell` | backend/app/core/orchestrator.py:943-1170 | the content of every successful call is told in plan order: up to the first subtask that stops, or all of them if all agents are present, and none otherwise |
| `WorkerSubtasks.ParallelRefinesSequential` | backend/app/core/orchestrator.py:943-1170 | with all agents present both ways return the same ordered results, or raise the error of the lowest failing subtask with the hop naming it |
| `WorkerSubtasks.ParallelAgreesIff` | backend/app/core/orchestrator.py:943-1170 | in general they agree iff no call fails before the first subtask without an agent |
| `WorkerSubtasks.SequentialMessagesArePrefixIff` | backend/app/core/orchestrator.py:943-1170 | what the sequential run has told the user is a prefix of what the parallel run tells iff all agents are present or the sequential run has told nothing |
| `ModelFallback.FallbackChain` | backend/app/services/litellm_service.py:263-281 | the distinct references of the links, each resolved, at most one more than there are aliases; or the first reference visited twice; or the unknown alias the links lead to |
| `ModelFallback.ResolvesTo` | backend/app/services/litellm_service.py:231-261 | an alias stands for its configuration, with the provider's prefix before a model name without a slash; any other reference with a slash for the provider before the first slash; anything else is an unknown alias |
| `ModelFallback.KeyExactly` | backend/app/services/litellm_service.py:507-522 | the key used is the first stored one of a provider with this normal form, else that of the environment |
| `ModelFallback.CycleIffRevisits` | backend/app/services/litellm_service.py:268-281 | a cycle is reported iff the links revisit a reference, an unknown alias iff they lead to one |
| `ModelFallback.ChainIsUnique` | backend/app/services/litellm_service.py:263-281 | the links determine the chain |
| `ModelFallback.Attempts` | backend/app/services/litellm_service.py:506-593 | the reply is the first success in chain order, with exactly the earlier failures recorded; without a success all are |
| `ModelFallback.ChatCompletion` | backend/app/services/litellm_service.py:484-593 | configuration errors come before any attempt; otherwise the attempts along the chain of the merged configuration |
| `ModelFallback.FirstSuccessIsUnique` | backend/app/services/litellm_service.py:506-593 | no other reply and no other record of failures is possible |

## Left out

- LeaseRuns.NoSplitBrain: holds for runs whose endpoints and sweeps check for an unexpired lease when they commit, which those of the source do not; ClaimSplitsIff says for every run when the promise holds. Nothing is said about writes of an executor after it lost its lease, and a token counts as live until its executor has written its last terminal status or its promise has run out.
- TaskLease.TaskStore.ClaimTaskLease: the failed update, the reset of an expired lease and the second update are one transaction; the source commits between them. In `LeaseRuns` a reset and a claim may also come as separate commands.
- TaskLease.TaskStore.RecoverExpiredTaskLeases: the SELECT and the commit of the sweep are one transaction; in the source a lease can be extended in between. In `LeaseRuns` a sweep that commits what it decided earlier is a status write that is not the executor's, in `WorkflowCrash` it is `ReclaimCommits`.
- TaskLease.TaskStore.RecoverOrphanWorkflowRuns: the same; in `WorkflowCrash` its late commit is `SettleCommits`.
- TaskRecovery.RecoverUnfinishedTasks: the SELECTs of the restart, its commit and its count are one transaction; in `LeaseRuns` a late commit of it is a reset.
- TaskQueue.TaskService.FailItem: an error text equal to the one that was read is written again, which the source does not do.
- MentionTheorems.ScannersAgree: texts are sequences of the same characters on both sides; the browser counts UTF-16 code units and the backend code points. Lower-casing is one function that keeps lengths.
- RelayChain.ParseRelayAgentIds: a text nested so deeply that `json.loads` raises RecursionError, which `relay.py:44` does not catch, gives no chain here; the source lets the exception through.
- JsonInts.ParseIsTheGrammar: JSON values other than integers need no model, because any of them in the text leads to the empty chain, as an invalid text does; the limit of 4300 digits that Python puts on integers is not modelled.
- RateLimit.RateLimiter.CheckRedis: one instant stands for the computation of the window and the awaited INCR and EXPIRE.
- RateLimitBounds.RateBounds: a Redis that is restarted or flushed and so loses its counters is none of the faults. With one instant per check, checks that run concurrently and whose INCRs arrive out of the order of their clocks are not covered. Wall clock and monotonic clock are one clock that never runs back, and the Redis server keeps the same time.
- TaskConvergence.EndsAtMaximum: says nothing about the refetch that the hook schedules after an event.
- WorkerSubtasks.WorkerStage.RunSequential: a model call is its outcome, so the differing context messages of the two ways and the tool loop of `_run_agent_with_tools` are not compared.
- ModelFallback.Attempts: latencies, usage, cost, the validation of messages and temperature, and the redaction and truncation of error messages are not modelled.
- Deletion of terminal queue rows on resumption (`backend/app/api/v1/endpoints/task_replay.py:183-189`): runs of the queue contain no deletion, so a resumed task gets a new row and a new count.
- The retry delay under interleaving and the settlement of every queue row: the claiming UPDATE does not recheck `available_at`, and a row at its attempt limit with an expired lease stays leased.
- Status transitions of tasks in general: `update_task_status` does not check the current status. Runs of the lease contain any of its writes, also of PENDING.
- What a node executor, a model call or a provider does: outcomes are given; the persistence of workflow steps is part of the node's outcome.
- RelayChain.PreviewIsWhatIsStoredIff: outside the branch for nodes its condition is equality of the two chains; PreviewOfListedNamesIff has a condition on the names picked, under which they are equal.
- The order in which the backend walks the terms of one agent, which comes from a set: theorems about two tables take them as lists, in any order.
- TaskQueue.TaskService.ClaimNext: after an UPDATE that matched nothing the source rolls back, which expires the candidates it has loaded (`backend/app/services/task_service.py:91`); that the next one can still be read in an asynchronous session is assumed.
- Endpoints, sockets, React components, file bridges, plugins, encryption and redaction.
