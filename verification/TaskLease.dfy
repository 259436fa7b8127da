/** The execution lease on the `Task` row, the sweeps over tasks and workflow runs, and the other status writers. */
module TaskLease {
  import opened Wrappers

  // One row changes by `Effect`; the store's methods are proved against it. In these methods a claim whose first update
  // matches nothing and that then resets an expired lease counts as one transaction, as does every read-then-commit of
  // one row; commits that come later than what they were decided on are commands of their own in the runs.

  type Time = real
  type Token = nat

  const LEASE_DURATION: Time := 1800.0
  /** The note the sweep appends: the lease expired and a worker took the task back. */
  const RECLAIMED := " [\U{79DF}\U{7EA6}\U{8FC7}\U{671F}\U{FF0C}\U{4EFB}\U{52A1}\U{88AB} worker \U{56DE}\U{6536}]"

  datatype TaskStatus = Pending | Running | WaitingApproval | Completed | Failed | Cancelled

  datatype Task = Task(status: TaskStatus, token: Option<Token>, expiresAt: Option<Time>, result: Option<string>)
  {
    predicate ExpiredAt(now: Time) {
      expiresAt.Some? && expiresAt.value < now
    }

    /** `task_lease_is_expired`. */
    predicate Lapsed(now: Time) {
      status == Running && ExpiredAt(now)
    }

    predicate Active() {
      status == Running || status == WaitingApproval
    }

    predicate Terminal() {
      status == Completed || status == Failed || status == Cancelled
    }

    predicate Resumable() {
      status == Pending || status == Failed || status == Cancelled
    }

    function Released(): Task {
      this.(token := None, expiresAt := None)
    }
  }

  datatype Command =
    | Claim(token: Token)          // claim_task_lease
    | Extend(token: Token)         // _extend_task_lease
    | SetStatus(status: TaskStatus, writer: Option<Token>)  // update_task_status, under the lease of `writer` if any
    | WriteStatus(status: TaskStatus)  // a late status write of a session that had read no lease: it clears none
    | Cancel                       // the cancel endpoint
    | Resume                       // the resume endpoint
    | Sweep                        // recover_expired_task_leases
    | Restart                      // recover_unfinished_tasks at process start
    | Reset                        // the commit of a restart or of a claim's reset that read the row earlier
    | Join(executor: Token)        // an executor starts without a claim: a workflow's that finds the task not pending,
                                   // or the dispatch to an integration node, which never claims
    | Leave(executor: Token)       // ... and ends without writing a terminal status

  datatype Timed = Timed(now: Time, cmd: Command)

  /** A claim succeeds on a pending task, and on a running one whose lease has expired. */
  predicate Claimable(t: Task, now: Time) {
    t.status == Pending || t.Lapsed(now)
  }

  predicate Extends(t: Task, token: Token) {
    t.Active() && t.token == Some(token)
  }

  function Effect(t: Task, e: Timed): Task {
    match e.cmd
    case Claim(token) =>
      if Claimable(t, e.now)
      then t.(status := Running, token := Some(token), expiresAt := Some(e.now + LEASE_DURATION))
      else t
    case Extend(token) =>
      if Extends(t, token) then t.(expiresAt := Some(e.now + LEASE_DURATION)) else t
    case SetStatus(status, _) =>
      var u := t.(status := status);
      if status == Completed || status == Failed then u.Released() else u
    case WriteStatus(status) => t.(status := status)
    case Cancel =>
      if t.Terminal() then t else t.(status := Cancelled)
    case Resume =>
      if t.Resumable() then t.(status := Pending) else t
    case Sweep =>
      if t.Active() && t.ExpiredAt(e.now) then Reclaimed(t) else t
    case Restart =>
      if t.status == Running && (t.expiresAt.None? || t.ExpiredAt(e.now)) then t.(status := Pending).Released() else t
    case Reset => t.(status := Pending).Released()
    case Join(_) => t
    case Leave(_) => t
  }

  function Reclaimed(t: Task): Task {
    t.(status := Failed, result := Some((if t.result.Some? then t.result.value else "") + RECLAIMED)).Released()
  }

  // ---- Workflow runs

  datatype RunStatus = RunRunning | RunCompleted | RunFailed

  datatype WorkflowRun = WorkflowRun(taskId: int, status: RunStatus)

  type Tasks = map<int, Task>
  type Runs = map<int, WorkflowRun>

  function SweptTasks(tasks: Tasks, now: Time): Tasks {
    map id | id in tasks :: Effect(tasks[id], Timed(now, Sweep))
  }

  /** `recover_expired_task_leases` also fails the running runs of every task it reclaims. */
  function SweptRun(tasks: Tasks, r: WorkflowRun, now: Time): WorkflowRun {
    if r.status == RunRunning && r.taskId in tasks && tasks[r.taskId].Active() && tasks[r.taskId].ExpiredAt(now)
    then r.(status := RunFailed) else r
  }

  function SweptRuns(tasks: Tasks, runs: Runs, now: Time): Runs {
    map id | id in runs :: SweptRun(tasks, runs[id], now)
  }

  /** `recover_orphan_workflow_runs`. */
  function Settled(tasks: Tasks, r: WorkflowRun): WorkflowRun {
    if r.status == RunRunning && r.taskId in tasks && tasks[r.taskId].Terminal()
    then r.(status := if tasks[r.taskId].status == Completed then RunCompleted else RunFailed) else r
  }

  function SettledRuns(tasks: Tasks, runs: Runs): Runs {
    map id | id in runs :: Settled(tasks, runs[id])
  }

  /** The sweep while the tasks in `todo` are not yet reclaimed. */
  ghost function SweptBut(tasks: Tasks, todo: set<int>, now: Time): Tasks {
    map id | id in tasks :: if id in todo then tasks[id] else Effect(tasks[id], Timed(now, Sweep))
  }

  ghost function SweptRunsBut(tasks: Tasks, runs: Runs, todo: set<int>, now: Time): Runs {
    map r | r in runs :: if runs[r].taskId in todo then runs[r] else SweptRun(tasks, runs[r], now)
  }

  function RunsOfTaskFailed(runs: Runs, id: int): Runs {
    map r | r in runs ::
      if runs[r].taskId == id && runs[r].status == RunRunning then runs[r].(status := RunFailed) else runs[r]
  }

  lemma ReclaimOne(tasks: Tasks, runs: Runs, todo: set<int>, now: Time, id: int)
    requires id in todo && id in tasks && tasks[id].Active() && tasks[id].ExpiredAt(now)
    ensures var before := SweptBut(tasks, todo, now);
            before[id := Reclaimed(before[id])] == SweptBut(tasks, todo - {id}, now)
    ensures RunsOfTaskFailed(SweptRunsBut(tasks, runs, todo, now), id) == SweptRunsBut(tasks, runs, todo - {id}, now)
  {
    var before := SweptRunsBut(tasks, runs, todo, now);
    forall r | r in runs
      ensures RunsOfTaskFailed(before, id)[r] == SweptRunsBut(tasks, runs, todo - {id}, now)[r]
    {
    }
  }

  lemma NoneReclaimed(tasks: Tasks, runs: Runs, expired: set<int>, now: Time)
    requires forall id :: id in tasks && tasks[id].Active() && tasks[id].ExpiredAt(now) ==> id in expired
    ensures SweptBut(tasks, expired, now) == tasks && SweptRunsBut(tasks, runs, expired, now) == runs
  {
    forall id | id in tasks
      ensures SweptBut(tasks, expired, now)[id] == tasks[id]
    {
    }
    forall r | r in runs
      ensures SweptRunsBut(tasks, runs, expired, now)[r] == runs[r]
    {
    }
  }

  lemma AllReclaimed(tasks: Tasks, runs: Runs, now: Time)
    ensures SweptBut(tasks, {}, now) == SweptTasks(tasks, now)
    ensures SweptRunsBut(tasks, runs, {}, now) == SweptRuns(tasks, runs, now)
  {
  }

  datatype ClaimError = TaskNotFound | TaskNotRunnable(status: TaskStatus)

  class TaskStore {
    var tasks: Tasks
    var runs: Runs
    var nextToken: Token  // uuid4: every draw differs from all earlier ones

    ghost predicate Valid()
      reads this
    {
      forall id :: id in tasks && tasks[id].token.Some? ==> tasks[id].token.value < nextToken
    }

    constructor (tasks: Tasks, runs: Runs)
      requires forall id :: id in tasks ==> tasks[id].token.None?
      ensures Valid() && this.tasks == tasks && this.runs == runs
    {
      this.tasks := tasks;
      this.runs := runs;
      this.nextToken := 0;
    }

    /** The recursion happens once at most: the reset leaves the task pending. */
    method ClaimTaskLease(id: int, now: Time) returns (r: Result<Token, ClaimError>)
      requires Valid()
      modifies this
      ensures Valid() && runs == old(runs)
      ensures r.Failure? <==> id !in old(tasks) || !Claimable(old(tasks)[id], now)
      ensures r.Failure? ==> tasks == old(tasks)
                             && r.error == if id in tasks then TaskNotRunnable(tasks[id].status) else TaskNotFound
      ensures r.Success? ==> old(nextToken) <= r.value < nextToken
                             && tasks == old(tasks)[id := Effect(old(tasks)[id], Timed(now, Claim(r.value)))]
      ensures r.Success? <==>
                && id in old(tasks)
                && var t := old(tasks)[id];
                   || t.status == Pending
                   || (t.status == Running && t.expiresAt.Some? && t.expiresAt.value < now)
      ensures r.Success? ==> forall other :: other in old(tasks) ==> old(tasks)[other].token != Some(r.value)
      ensures r.Success? ==> tasks == old(tasks)[id := Task(Running, Some(r.value), Some(now + 1800.0),
                                                            old(tasks)[id].result)]
      decreases id in tasks && tasks[id].status != Pending
    {
      var claimToken := nextToken;
      nextToken := nextToken + 1;
      if id in tasks && tasks[id].status == Pending {
        tasks := tasks[id := tasks[id].(status := Running, token := Some(claimToken),
                                        expiresAt := Some(now + LEASE_DURATION))];
        return Success(claimToken);
      }
      if id !in tasks {
        return Failure(TaskNotFound);
      }
      if tasks[id].status == Running && tasks[id].expiresAt.Some? && tasks[id].expiresAt.value < now {
        tasks := tasks[id := tasks[id].(status := Pending, token := None, expiresAt := None)];
        r := ClaimTaskLease(id, now);
      } else {
        r := Failure(TaskNotRunnable(tasks[id].status));
      }
    }

    method ExtendTaskLease(id: int, token: Token, now: Time) returns (renewed: bool)
      requires Valid()
      modifies this
      ensures Valid() && runs == old(runs) && nextToken == old(nextToken)
      ensures renewed == (id in old(tasks) && Extends(old(tasks)[id], token))
      ensures tasks == if id in old(tasks) then old(tasks)[id := Effect(old(tasks)[id], Timed(now, Extend(token)))]
                       else old(tasks)
      ensures renewed <==> id in old(tasks) && old(tasks)[id].token == Some(token)
                           && (old(tasks)[id].status == Running || old(tasks)[id].status == WaitingApproval)
      ensures renewed ==> tasks == old(tasks)[id := Task(old(tasks)[id].status, Some(token), Some(now + 1800.0),
                                                         old(tasks)[id].result)]
      ensures !renewed ==> tasks == old(tasks)
    {
      renewed := id in tasks && tasks[id].status in {Running, WaitingApproval} && tasks[id].token == Some(token);
      if renewed {
        tasks := tasks[id := tasks[id].(expiresAt := Some(now + LEASE_DURATION))];
      }
      assert id in old(tasks) ==> old(tasks)[id := old(tasks)[id]] == old(tasks);
    }

    /** Fails every task whose lease has expired, with its running workflow runs. */
    method RecoverExpiredTaskLeases(now: Time) returns (count: nat)
      requires Valid()
      modifies this
      ensures Valid() && nextToken == old(nextToken)
      ensures tasks == SweptTasks(old(tasks), now)
      ensures runs == SweptRuns(old(tasks), old(runs), now)
      ensures count == |set id | id in old(tasks) && old(tasks)[id].Active() && old(tasks)[id].ExpiredAt(now)|
    {
      var expired := set id | id in tasks && tasks[id].Active() && tasks[id].ExpiredAt(now);
      count := |expired|;
      var todo := expired;
      NoneReclaimed(tasks, runs, expired, now);
      while todo != {}
        invariant todo <= expired && nextToken == old(nextToken) && Valid()
        invariant tasks == SweptBut(old(tasks), todo, now) && runs == SweptRunsBut(old(tasks), old(runs), todo, now)
        decreases todo
      {
        SomeMember(todo);
        var id :| id in todo;
        ReclaimOne(old(tasks), old(runs), todo, now, id);
        tasks := tasks[id := Reclaimed(tasks[id])];
        runs := RunsOfTaskFailed(runs, id);
        todo := todo - {id};
      }
      AllReclaimed(old(tasks), old(runs), now);
    }

    /** Settles the running runs whose task is already terminal. */
    method RecoverOrphanWorkflowRuns() returns (count: nat)
      requires Valid()
      modifies this`runs
      ensures Valid()
      ensures runs == SettledRuns(tasks, old(runs))
      ensures count == |set r | r in old(runs) && Settled(tasks, old(runs)[r]) != old(runs)[r]|
    {
      var orphans := set r | r in runs && runs[r].status == RunRunning
                             && runs[r].taskId in tasks && tasks[runs[r].taskId].Terminal();
      assert orphans == set r | r in runs && Settled(tasks, runs[r]) != runs[r];
      count := |orphans|;
      var todo := orphans;
      while todo != {}
        invariant todo <= orphans && runs.Keys == old(runs).Keys
        invariant forall r :: r in runs ==>
                    runs[r] == if r in todo then old(runs)[r] else Settled(tasks, old(runs)[r])
        decreases todo
      {
        SomeMember(todo);
        var r :| r in todo;
        var outcome := if tasks[runs[r].taskId].status == Completed then RunCompleted else RunFailed;
        runs := runs[r := runs[r].(status := outcome)];
        todo := todo - {r};
      }
      assert forall r :: r in runs ==> runs[r] == SettledRuns(tasks, old(runs))[r];
    }
  }

  // ---- What the other writers leave on a row

  /** Only a completed or failed status clears the lease: a cancelled or resumed task keeps the lease it had, and a
      restart takes back exactly the running tasks without a lease or with an expired one. */
  lemma WritersLeave(t: Task, now: Time, status: TaskStatus, writer: Option<Token>)
    ensures var written := Effect(t, Timed(now, SetStatus(status, writer)));
            written == if status == Completed || status == Failed then Task(status, None, None, t.result)
                       else Task(status, t.token, t.expiresAt, t.result)
    ensures var cancelled := Effect(t, Timed(now, Cancel));
            && cancelled == Task(cancelled.status, t.token, t.expiresAt, t.result)
            && (cancelled.status == Cancelled <==> t.status != Completed && t.status != Failed)
            && (cancelled.status != Cancelled ==> cancelled == t)
    ensures var resumed := Effect(t, Timed(now, Resume));
            && resumed == Task(resumed.status, t.token, t.expiresAt, t.result)
            && (resumed.status == Pending <==> t.status in {Pending, Failed, Cancelled})
            && (resumed.status != Pending ==> resumed == t)
    ensures var restarted := Effect(t, Timed(now, Restart));
            if t.status == Running && (t.expiresAt.Some? ==> t.expiresAt.value < now)
            then restarted == Task(Pending, None, None, t.result) else restarted == t
  {
  }

  // ---- The sweep as a whole

  predicate Reclaimable(t: Task, now: Time) {
    t.Active() && t.ExpiredAt(now)
  }

  /** The runs after `_sweep_expired_leases`; the tasks are `SweptTasks`. */
  function SweptAndSettled(tasks: Tasks, runs: Runs, now: Time): Runs {
    SettledRuns(SweptTasks(tasks, now), SweptRuns(tasks, runs, now))
  }

  predicate Agrees(t: Task, r: WorkflowRun) {
    r.status == if t.status == Completed then RunCompleted else RunFailed
  }

  /** After a sweep no active task has an expired lease, and unexpired tasks are untouched. */
  lemma SweepReclaimsExpiredTasks(tasks: Tasks, now: Time, id: int)
    requires id in tasks
    ensures var t := SweptTasks(tasks, now)[id];
            && !Reclaimable(t, now)
            && (if Reclaimable(tasks[id], now) then t.status == Failed && t.token.None? && t.expiresAt.None?
                else t == tasks[id])
  {}

  /** The sweep fails a task if and only if it is running or waiting for approval with an expiry before `now`, and with
      it its running runs; the failed task keeps its result with a note behind it, every other task is untouched. */
  lemma SweepFailsExactly(tasks: Tasks, runs: Runs, now: Time, id: int)
    requires id in tasks
    ensures var t, swept := tasks[id], SweptTasks(tasks, now)[id];
            var takenBack := (t.status == Running || t.status == WaitingApproval)
                             && t.expiresAt.Some? && t.expiresAt.value < now;
            && (swept != t <==> takenBack)
            && (takenBack ==> exists text :: swept == Task(Failed, None, None, Some(text))
                                             && text == (if t.result.Some? then t.result.value else "") + RECLAIMED)
            && forall r :: r in runs && runs[r].taskId == id ==>
                 SweptRuns(tasks, runs, now)[r] ==
                 if takenBack && runs[r].status == RunRunning then WorkflowRun(id, RunFailed) else runs[r]
  {
    var text := (if tasks[id].result.Some? then tasks[id].result.value else "") + RECLAIMED;
    assert tasks[id].Active() && tasks[id].ExpiredAt(now) ==>
        SweptTasks(tasks, now)[id] == Task(Failed, None, None, Some(text));
  }

  /** The orphan sweep settles a run if and only if it is running while its task is completed, failed or cancelled, and
      as completed if and only if the task is. */
  lemma OrphansSettledExactly(tasks: Tasks, runs: Runs, r: int)
    requires r in runs
    ensures var run := runs[r];
            var ended := run.status == RunRunning && run.taskId in tasks
                         && tasks[run.taskId].status in {Completed, Failed, Cancelled};
            SettledRuns(tasks, runs)[r] ==
            if !ended then run
            else if tasks[run.taskId].status == Completed then WorkflowRun(run.taskId, RunCompleted)
            else WorkflowRun(run.taskId, RunFailed)
  {}

  /** After a sweep a run is still running only if its task is not terminal; a run that the sweep settled was
      running and now agrees with its task; every other run is untouched. */
  lemma SweepSettlesRuns(tasks: Tasks, runs: Runs, now: Time, i: int)
    requires i in runs
    ensures var t := SweptTasks(tasks, now);
            var r := SweptAndSettled(tasks, runs, now)[i];
            && r.taskId == runs[i].taskId
            && (r.status == RunRunning && r.taskId in t ==> !t[r.taskId].Terminal())
            && (r != runs[i] ==>
                  runs[i].status == RunRunning && r.taskId in t && t[r.taskId].Terminal() && Agrees(t[r.taskId], r))
  {}

  /** A second sweep at the same instant changes nothing. */
  lemma SweepIsIdempotent(tasks: Tasks, runs: Runs, now: Time)
    ensures SweptTasks(SweptTasks(tasks, now), now) == SweptTasks(tasks, now)
    ensures SweptAndSettled(SweptTasks(tasks, now), SweptAndSettled(tasks, runs, now), now)
            == SweptAndSettled(tasks, runs, now)
  {
    var t, r := SweptTasks(tasks, now), SweptAndSettled(tasks, runs, now);
    forall id | id in t
      ensures Effect(t[id], Timed(now, Sweep)) == t[id]
    {
      SweepReclaimsExpiredTasks(tasks, now, id);
    }
    assert SweptTasks(t, now) == t;
    forall i | i in r
      ensures SweptRun(t, r[i], now) == r[i] && Settled(t, r[i]) == r[i]
    {
      SweepSettlesRuns(tasks, runs, now, i);
      if r[i].taskId in t {
        SweepReclaimsExpiredTasks(tasks, now, r[i].taskId);
      }
    }
    assert SweptRuns(t, r, now) == r;
  }
}
