/** A workflow's task and run record under `run_workflow_dag`, whose executor may stop at any point. */
module WorkflowCrash {
  import opened Wrappers
  import opened TaskLease

  // The executor is a program counter over its database commits. Its node results, the approvals and a user's
  // cancellation are free choices; the lease is extended by the background renewer while it runs. `Other` is any commit
  // of another session or executor, whatever it decided it on: an endpoint that read the row long ago, a resumption, a
  // restart, the orchestrator that runs a resumed task.

  datatype Pc =
    | Starting   // before the claim
    | Executing  // inside execute_dag
    | Completing // the task is COMPLETED, the run not yet written
    | Draining   // a node of a layer has failed or was rejected, and the others of the layer go on
    | Failing    // an exception reached the handler
    | Closing    // the task's failure is written, the run not yet
    | Done

  datatype State = State(pc: Pc, task: Task, run: RunStatus)

  datatype Action =
    | Begin(token: Token)     // claims a pending task; any other status goes on without a lease
    | LoseClaim               // the claim raised
    | Renew
    | Suspend                 // a human_approval node waits
    | Approve
    | Reject                  // the node writes FAILED, then raises
    | ReviewerRejects         // the approval endpoint writes FAILED while the node still polls
    | NodeFails
    | LayerEnds               // the last node of the layer has ended, and the failure is raised
    | AllNodesSucceed         // first terminal commit: the task
    | CompletionRaises        // the first commit succeeded, what follows it raised
    | CompleteRun             // second terminal commit: the run
    | FailTask
    | FailRun
    | UserCancels
    | Sweeps                  // another process's `_sweep_expired_leases`
    | Other(cmd: Command)     // any other write of the task, however late
    | ReclaimCommits          // the late commit of a sweep that had selected the task and its run
    | SettleCommits(run: RunStatus)  // the late commit of a sweep that had selected the run as an orphan

  predicate Enabled(s: State, a: Action) {
    match a
    case Begin(_) => s.pc == Starting
    case LoseClaim => s.pc == Starting && s.task.status != Pending
    case Renew => s.pc !in {Starting, Done} && s.task.token.Some? && s.task.Active()
    case Suspend => s.pc in {Executing, Draining}
    case Approve => s.pc in {Executing, Draining}
    case Reject => s.pc in {Executing, Draining}
    case ReviewerRejects => s.task.status == WaitingApproval
    case NodeFails => s.pc in {Executing, Draining}
    case LayerEnds => s.pc == Draining
    case AllNodesSucceed => s.pc == Executing
    case CompletionRaises => s.pc == Completing
    case CompleteRun => s.pc == Completing
    case FailTask => s.pc == Failing
    case FailRun => s.pc == Closing
    case UserCancels => true
    case Sweeps => true
    case Other(cmd) => !cmd.Sweep?
    case ReclaimCommits => true
    case SettleCommits(run) => run != RunRunning
  }

  /** `update_task_status`; who writes makes no difference to the row. */
  function Written(t: Task, now: Time, status: TaskStatus): Task {
    Effect(t, Timed(now, SetStatus(status, None)))
  }

  function Next(s: State, now: Time, a: Action): State {
    match a
    case Begin(token) =>
      if s.task.status == Pending
      then s.(pc := Executing, task := Effect(s.task, Timed(now, Claim(token))))
      else s.(pc := Executing)
    case LoseClaim => s.(pc := Failing)
    case Renew => if s.task.token.Some? then s.(task := Effect(s.task, Timed(now, Extend(s.task.token.value)))) else s
    case Suspend => s.(task := Written(s.task, now, WaitingApproval))
    case Approve => s.(task := Written(s.task, now, Running))
    case Reject => s.(pc := Draining, task := Written(s.task, now, TaskStatus.Failed))
    case ReviewerRejects => s.(task := Written(s.task, now, TaskStatus.Failed))
    case NodeFails => s.(pc := Draining)
    case LayerEnds => s.(pc := Failing)
    case AllNodesSucceed => s.(pc := Completing, task := Written(s.task, now, TaskStatus.Completed))
    case CompletionRaises => s.(pc := Failing)
    case CompleteRun => s.(pc := Done, run := RunCompleted)
    case FailTask =>
      if s.task.status in {TaskStatus.Failed, Cancelled} then s.(pc := Closing)
      else s.(pc := Closing, task := Written(s.task, now, TaskStatus.Failed))
    case FailRun => s.(pc := Done, run := RunFailed)
    case UserCancels => s.(task := Effect(s.task, Timed(now, TaskLease.Cancel)))
    case Sweeps => Swept(s, now)
    case Other(cmd) => s.(task := Effect(s.task, Timed(now, cmd)))
    case ReclaimCommits => s.(task := Reclaimed(s.task), run := RunFailed)
    case SettleCommits(run) => s.(run := run)
  }

  /** What each commit of the executor leaves of task and run. A pending task is claimed, any other is executed as it
      is; the terminal commits clear the lease, and the failing one leaves a failed or cancelled task alone. */
  lemma CommitsExactly(s: State, now: Time, token: Token)
    ensures var n := Next(s, now, Begin(token));
            && n.run == s.run
            && n.task == if s.task.status != Pending then s.task
                         else Task(Running, Some(token), Some(now + 1800.0), s.task.result)
    ensures var n := Next(s, now, Suspend);
            n.run == s.run && n.task == s.task.(status := WaitingApproval)
    ensures var n := Next(s, now, Approve);
            n.run == s.run && n.task == s.task.(status := Running)
    ensures var n := Next(s, now, Reject);
            n.run == s.run && n.task == Task(TaskStatus.Failed, None, None, s.task.result)
    ensures var n := Next(s, now, AllNodesSucceed);
            n.run == s.run && n.task == Task(TaskStatus.Completed, None, None, s.task.result)
    ensures var n := Next(s, now, CompleteRun);
            n.run == RunCompleted && n.task == s.task
    ensures var n := Next(s, now, FailTask);
            && n.run == s.run
            && n.task == if s.task.status == TaskStatus.Failed || s.task.status == Cancelled then s.task
                         else Task(TaskStatus.Failed, None, None, s.task.result)
    ensures var n := Next(s, now, FailRun);
            n.run == RunFailed && n.task == s.task
  {
  }

  /** `_sweep_expired_leases` on this task and its run. */
  function Swept(s: State, now: Time): State {
    var swept := Effect(s.task, Timed(now, Sweep));
    s.(task := swept, run := Settled(map[0 := swept], SweptRun(map[0 := s.task], WorkflowRun(0, s.run), now)).status)
  }

  /** ... and that is the sweep over all tasks and runs, restricted to these two rows. */
  lemma SweptIsTheSweep(s: State, now: Time)
    ensures var tasks, runs := map[0 := s.task], map[0 := WorkflowRun(0, s.run)];
            Swept(s, now) == s.(task := SweptTasks(tasks, now)[0], run := SweptAndSettled(tasks, runs, now)[0].status)
  {
    assert SweptTasks(map[0 := s.task], now) == map[0 := Effect(s.task, Timed(now, Sweep))];
  }

  datatype Event = At(now: Time, action: Action)

  function Run(s: State, acts: seq<Event>): State
    decreases |acts|
  {
    if acts == [] then s else Run(Next(s, acts[0].now, acts[0].action), acts[1..])
  }

  predicate AllEnabled(s: State, acts: seq<Event>)
    decreases |acts|
  {
    acts != [] ==> Enabled(s, acts[0].action) && AllEnabled(Next(s, acts[0].now, acts[0].action), acts[1..])
  }

  lemma RunFirst(s: State, a: Event, rest: seq<Event>)
    ensures Run(s, [a] + rest) == Run(Next(s, a.now, a.action), rest)
    ensures AllEnabled(s, [a] + rest) <==> Enabled(s, a.action) && AllEnabled(Next(s, a.now, a.action), rest)
  {
    assert ([a] + rest)[1..] == rest;
  }

  /** One event, with the state it leads to. */
  predicate Leads(s: State, e: Event, n: State) {
    Enabled(s, e.action) && Next(s, e.now, e.action) == n
  }

  lemma ThreeEvents(s: State, a: Event, s1: State, b: Event, s2: State, c: Event, s3: State)
    requires Leads(s, a, s1) && Leads(s1, b, s2) && Leads(s2, c, s3)
    ensures AllEnabled(s, [a, b, c]) && Run(s, [a, b, c]) == s3
  {
    assert [a, b, c] == [a] + ([b] + ([c] + []));
    RunFirst(s, a, [b] + ([c] + []));
    RunFirst(s1, b, [c] + []);
    RunFirst(s2, c, []);
  }

  lemma FourEvents(s: State, a: Event, s1: State, b: Event, s2: State, c: Event, s3: State, d: Event, s4: State)
    requires Leads(s, a, s1) && Leads(s1, b, s2) && Leads(s2, c, s3) && Leads(s3, d, s4)
    ensures AllEnabled(s, [a, b, c, d]) && Run(s, [a, b, c, d]) == s4
  {
    assert [a, b, c, d] == [a] + [b, c, d];
    RunFirst(s, a, [b, c, d]);
    ThreeEvents(s1, b, s2, c, s3, d, s4);
  }

  lemma {:induction false} RunJoins(s: State, a: seq<Event>, b: seq<Event>)
    ensures Run(s, a + b) == Run(Run(s, a), b)
    ensures AllEnabled(s, a + b) <==> AllEnabled(s, a) && AllEnabled(Run(s, a), b)
    decreases |a|
  {
    if a == [] {
      assert a + b == b;
    } else {
      assert (a + b)[1..] == a[1..] + b;
      RunJoins(Next(s, a[0].now, a[0].action), a[1..], b);
    }
  }

  const Created := State(Starting, Task(Pending, None, None, None), RunRunning)

  function OutcomeOf(status: TaskStatus): RunStatus {
    if status == TaskStatus.Completed then RunCompleted else RunFailed
  }

  function Outcome(t: Task): RunStatus {
    OutcomeOf(t.status)
  }

  // ---- When a task and its run disagree

  /** The task and its run have ended differently. A sweep leaves both alone, so if the executor stops here nothing
      repairs it. */
  predicate Disagrees(s: State) {
    s.task.Terminal() && s.run != RunRunning && s.run != Outcome(s.task)
  }

  lemma DisagreementStays(s: State, now: Time)
    requires Disagrees(s)
    ensures Swept(s, now) == s
  {
  }

  /** The terminal status that the event writes, if its guard holds. */
  function Ending(s: State, e: Event): Option<TaskStatus> {
    match e.action
    case AllNodesSucceed => Some(TaskStatus.Completed)
    case Reject => Some(TaskStatus.Failed)
    case ReviewerRejects => Some(TaskStatus.Failed)
    case FailTask => if s.task.status in {TaskStatus.Failed, Cancelled} then None else Some(TaskStatus.Failed)
    case UserCancels => if s.task.Terminal() then None else Some(Cancelled)
    case Sweeps => if s.task.Active() && s.task.ExpiredAt(e.now) then Some(TaskStatus.Failed) else None
    case Other(SetStatus(status, _)) =>
      if status in {TaskStatus.Completed, TaskStatus.Failed, Cancelled} then Some(status) else None
    case Other(WriteStatus(status)) =>
      if status in {TaskStatus.Completed, TaskStatus.Failed, Cancelled} then Some(status) else None
    case Other(Cancel) => if s.task.Terminal() then None else Some(Cancelled)
    case _ => None
  }

  /** The event ends the task otherwise than its run has ended already, or the run otherwise than its task: what its
      writer could have seen before the commit. */
  predicate Clashes(s: State, e: Event) {
    match e.action
    case CompleteRun => s.task.Terminal() && Outcome(s.task) != RunCompleted
    case FailRun => s.task.Terminal() && Outcome(s.task) != RunFailed
    case SettleCommits(run) => s.task.Terminal() && Outcome(s.task) != run
    case ReclaimCommits => false
    case _ =>
      var ending := Ending(s, e);
      ending.Some? && s.run != RunRunning && OutcomeOf(ending.value) != s.run
  }

  predicate Changes(s: State, e: Event) {
    var n := Next(s, e.now, e.action);
    n.task.status != s.task.status || n.run != s.run
  }

  lemma ClashStep(s: State, e: Event)
    requires Enabled(s, e.action)
    ensures Disagrees(Next(s, e.now, e.action)) <==> Clashes(s, e) || (Disagrees(s) && !Changes(s, e))
  {
  }

  function StateAt(acts: seq<Event>, k: nat): State
    requires k <= |acts|
  {
    Run(Created, acts[..k])
  }

  lemma StateStep(acts: seq<Event>, k: nat)
    requires k < |acts| && AllEnabled(Created, acts)
    ensures Enabled(StateAt(acts, k), acts[k].action)
    ensures StateAt(acts, k + 1) == Next(StateAt(acts, k), acts[k].now, acts[k].action)
  {
    assert acts[..k + 1] == acts[..k] + [acts[k]] && acts == acts[..k] + ([acts[k]] + acts[k + 1..]);
    OneMoreEvent(acts[..k], acts[k], acts[k + 1..], StateAt(acts, k));
  }

  lemma OneMoreEvent(front: seq<Event>, e: Event, rest: seq<Event>, s: State)
    requires AllEnabled(Created, front + ([e] + rest)) && s == Run(Created, front)
    ensures Enabled(s, e.action) && Run(Created, front + [e]) == Next(s, e.now, e.action)
  {
    RunJoins(Created, front, [e]);
    RunFirst(s, e, []);
    assert [e] + [] == [e];
    RunJoins(Created, front, [e] + rest);
    RunFirst(s, e, rest);
  }

  ghost predicate ClashesAt(acts: seq<Event>, k: nat) {
    k < |acts| && Clashes(StateAt(acts, k), acts[k])
  }

  ghost predicate DisagreesAt(acts: seq<Event>, n: nat) {
    n <= |acts| && Disagrees(StateAt(acts, n))
  }

  /** Event `k` clashes, and none of the events from there to `n` changes the status or the run again. */
  ghost predicate IsLastClash(acts: seq<Event>, k: nat, n: nat)
    requires n <= |acts|
  {
    k < n && ClashesAt(acts, k) && forall m :: k < m < n ==> !Changes(StateAt(acts, m), acts[m])
  }

  ghost predicate ClashedLast(acts: seq<Event>, n: nat)
    requires n <= |acts|
  {
    exists k: nat :: IsLastClash(acts, k, n)
  }

  lemma ClashedLastStep(acts: seq<Event>, n: nat)
    requires n < |acts|
    ensures ClashedLast(acts, n + 1)
            <==> ClashesAt(acts, n) || (!Changes(StateAt(acts, n), acts[n]) && ClashedLast(acts, n))
  {
    var next := n + 1;
    if k: nat :| IsLastClash(acts, k, next) {
      assert k < n ==> IsLastClash(acts, k, n);
    }
    if ClashesAt(acts, n) {
      assert IsLastClash(acts, n, n + 1);
    }
    if k: nat :| IsLastClash(acts, k, n) {
      assert !Changes(StateAt(acts, n), acts[n]) ==> IsLastClash(acts, k, n + 1);
    }
  }

  lemma DisagreesStep(acts: seq<Event>, n: nat)
    requires AllEnabled(Created, acts) && n < |acts|
    ensures DisagreesAt(acts, n + 1)
            <==> ClashesAt(acts, n) || (!Changes(StateAt(acts, n), acts[n]) && DisagreesAt(acts, n))
  {
    StateStep(acts, n);
    ClashStep(StateAt(acts, n), acts[n]);
  }

  /** For every run: task and run disagree after `n` events if and only if one of them clashed and nothing was changed
      since. */
  lemma {:induction false} DisagreesIff(acts: seq<Event>, n: nat)
    requires AllEnabled(Created, acts) && n <= |acts|
    ensures DisagreesAt(acts, n) <==> ClashedLast(acts, n)
    decreases n
  {
    if n == 0 {
      assert acts[..0] == [];
    } else {
      DisagreesIff(acts, n - 1);
      DisagreesStep(acts, n - 1);
      ClashedLastStep(acts, n - 1);
    }
  }

  /** ... so they agree at every point of a run if and only if no write clashes. */
  lemma NeverDisagreesIff(acts: seq<Event>)
    requires AllEnabled(Created, acts)
    ensures (forall n: nat :: !DisagreesAt(acts, n)) <==> (forall k: nat :: !ClashesAt(acts, k))
  {
    if k: nat :| ClashesAt(acts, k) {
      DisagreesStep(acts, k);
      assert DisagreesAt(acts, k + 1);
    }
    if n: nat :| DisagreesAt(acts, n) {
      DisagreesIff(acts, n);
      var k: nat :| IsLastClash(acts, k, n);
      assert ClashesAt(acts, k);
    }
  }

  lemma SweepRepairs(s: State, now: Time)
    requires s.task.expiresAt.Some? ==> s.task.ExpiredAt(now)
    ensures var repaired := Swept(s, now);
            && !Reclaimable(repaired.task, now) && Swept(repaired, now) == repaired
            && (repaired.task.Terminal() && repaired.run == Outcome(repaired.task)
                <==> && s.task.status != Pending && !(s.task.Active() && s.task.expiresAt.None?)
                     && !Disagrees(s) && !Clashes(s, At(now, Sweeps)))
  {
  }

  /** Crash recovery, for every run and every point at which the executor may stop: once the lease on the row has
      expired, a sweep leaves no active task with an expired lease, and task and run have ended alike afterwards if and
      only if the task is neither pending nor active without a lease, no earlier write clashed for good, and the sweep
      itself does not clash with the end of the run. A second sweep does nothing. */
  lemma RepairedIff(acts: seq<Event>, now: Time)
    requires AllEnabled(Created, acts)
    requires var s := Run(Created, acts); s.task.expiresAt.Some? ==> s.task.ExpiredAt(now)
    ensures var s := Run(Created, acts);
            var repaired := Swept(s, now);
            && !Reclaimable(repaired.task, now) && Swept(repaired, now) == repaired
            && (repaired.task.Terminal() && repaired.run == Outcome(repaired.task)
                <==> && s.task.status != Pending && !(s.task.Active() && s.task.expiresAt.None?)
                     && !ClashedLast(acts, |acts|) && !Clashes(s, At(now, Sweeps)))
  {
    assert acts[..|acts|] == acts;
    DisagreesIff(acts, |acts|);
    SweepRepairs(Run(Created, acts), now);
  }

  // ---- Runs in which nobody writes late

  /** A write of the task or the run that an endpoint or sweep decided on an older state, or that somebody else made. */
  predicate IsLate(a: Action) {
    a.Other? || a.ReclaimCommits? || a.SettleCommits?
  }

  /** No such write has an effect. */
  predicate NoLateWrites(s: State, acts: seq<Event>)
    decreases |acts|
  {
    acts != [] ==>
      && (IsLate(acts[0].action) ==> Next(s, acts[0].now, acts[0].action) == s)
      && NoLateWrites(Next(s, acts[0].now, acts[0].action), acts[1..])
  }

  /** The executor is past its success: it will write the run as failed, and the task is not COMPLETED. */
  predicate Harmless(s: State) {
    s.pc in {Draining, Failing, Closing} && s.task.status != TaskStatus.Completed
  }

  /** Sweeps come at any time, but those that find something to write come when that is harmless. */
  predicate TimelySweeps(s: State, acts: seq<Event>)
    decreases |acts|
  {
    acts != [] ==>
      && (acts[0].action == Sweeps ==> Swept(s, acts[0].now) == s || Harmless(s))
      && TimelySweeps(Next(s, acts[0].now, acts[0].action), acts[1..])
  }

  predicate Timely(s: State, acts: seq<Event>) {
    NoLateWrites(s, acts) && TimelySweeps(s, acts)
  }

  /** Before any sweep the run is written last: it is running until the executor is done, and then it agrees. */
  predicate Unswept(s: State) {
    && (s.task.token.Some? <==> s.task.expiresAt.Some?)
    && (s.pc == Starting ==> s.task.token.None? && s.task.status in {Pending, Cancelled})
    && (s.task.status == Pending ==> s.pc == Starting)
    && (s.pc == Completing ==> s.task.status == TaskStatus.Completed)
    && (s.task.status == TaskStatus.Completed ==> s.pc in {Completing, Failing, Done})
    && (s.pc == Closing ==> s.task.status in {TaskStatus.Failed, Cancelled})
    && (if s.pc == Done then s.task.Terminal() && s.run == Outcome(s.task) else s.run == RunRunning)
  }

  /** After a sweep that wrote the run harmlessly. A node that is approved while its layer drains may make the task
      active again, until the executor fails it. */
  predicate SweptFailed(s: State) {
    && (s.task.token.Some? <==> s.task.expiresAt.Some?) && s.run == RunFailed
    && s.pc in {Draining, Failing, Closing, Done}
    && s.task.status !in {Pending, TaskStatus.Completed} && (s.pc in {Closing, Done} ==> s.task.Terminal())
  }

  lemma UnsweptStep(s: State, e: Event)
    requires Unswept(s) && Enabled(s, e.action) && (IsLate(e.action) ==> Next(s, e.now, e.action) == s)
    requires e.action == Sweeps ==> Swept(s, e.now) == s || Harmless(s)
    ensures var n := Next(s, e.now, e.action); Unswept(n) || SweptFailed(n)
  {
  }

  lemma SettledStep(s: State, e: Event)
    requires SweptFailed(s) && Enabled(s, e.action) && (IsLate(e.action) ==> Next(s, e.now, e.action) == s)
    ensures SweptFailed(Next(s, e.now, e.action))
  {
  }

  lemma {:induction false} SettledRun(s: State, acts: seq<Event>)
    requires SweptFailed(s) && AllEnabled(s, acts) && NoLateWrites(s, acts)
    ensures SweptFailed(Run(s, acts))
    decreases |acts|
  {
    if acts != [] {
      SettledStep(s, acts[0]);
      SettledRun(Next(s, acts[0].now, acts[0].action), acts[1..]);
    }
  }

  lemma {:induction false} SafeRun(s: State, acts: seq<Event>)
    requires Unswept(s) && AllEnabled(s, acts) && Timely(s, acts)
    ensures Unswept(Run(s, acts)) || SweptFailed(Run(s, acts))
    decreases |acts|
  {
    if acts != [] {
      var n := Next(s, acts[0].now, acts[0].action);
      UnsweptStep(s, acts[0]);
      if Unswept(n) {
        SafeRun(n, acts[1..]);
      } else {
        SettledRun(n, acts[1..]);
      }
    }
  }

  /** When nobody writes late, every stop is repaired: the run is settled exactly as its task, unless the task was never
      claimed or is active without any lease. In those cases the sweep touches nothing; the run is still running, or a
      sweep before had failed it and the executor was on its way to fail the task. */
  lemma StoppedExecutorIsRepaired(acts: seq<Event>, now: Time)
    requires AllEnabled(Created, acts) && Timely(Created, acts)
    requires var s := Run(Created, acts); s.task.expiresAt.Some? ==> s.task.ExpiredAt(now)
    ensures var s := Run(Created, acts);
            var repaired := Swept(s, now);
            && !Reclaimable(repaired.task, now)
            && (if s.task.status == Pending || (s.task.Active() && s.task.token.None?)
                then repaired == s && (s.run == RunRunning || (s.run == RunFailed && s.pc in {Draining, Failing}))
                else repaired.task.Terminal() && repaired.run == Outcome(repaired.task))
            && Swept(repaired, now) == repaired
  {
    SafeRun(Created, acts);
  }

  // ---- Which sweeps allow a task and its run to disagree for good

  /** An executor that is done has written the run, and a token on the row has an expiry. */
  predicate Sound(s: State) {
    (s.pc == Done ==> s.run != RunRunning) && (s.task.token.Some? <==> s.task.expiresAt.Some?)
  }

  lemma SoundStep(s: State, e: Event)
    requires Sound(s) && Enabled(s, e.action)
    ensures Sound(Next(s, e.now, e.action))
  {
  }

  lemma {:induction false} SoundRun(s: State, acts: seq<Event>)
    requires Sound(s) && AllEnabled(s, acts)
    ensures Sound(Run(s, acts))
    decreases |acts|
  {
    if acts != [] {
      SoundStep(s, acts[0]);
      SoundRun(Next(s, acts[0].now, acts[0].action), acts[1..]);
    }
  }

  /** How an executor goes on after a sweep that wrote its run, up to a stop at which task and run disagree. */
  function Continuation(s: State): seq<Event> {
    match s.pc
    case Starting => [At(0.0, Begin(0))] + Executed(s.run)
    case Executing => Executed(s.run)
    case Completing =>
      if s.run == RunFailed then [At(0.0, CompleteRun)] else [At(0.0, CompletionRaises), At(0.0, FailTask)]
    case Draining => [At(0.0, LayerEnds), At(0.0, FailTask)]
    case Failing => [At(0.0, FailTask)]
    case Closing => [At(0.0, FailRun)]
    case Done => []
  }

  function Executed(run: RunStatus): seq<Event> {
    if run == RunFailed then [At(0.0, AllNodesSucceed)] else [At(0.0, NodeFails), At(0.0, LayerEnds), At(0.0, FailTask)]
  }

  /** Without late writes of others. */
  ghost predicate CanDisagree(s: State) {
    exists acts :: Leaves(s, acts)
  }

  predicate Leaves(s: State, acts: seq<Event>) {
    AllEnabled(s, acts) && NoLateWrites(s, acts) && Disagrees(Run(s, acts))
  }

  lemma LeavesAfter(s: State, e: Event, rest: seq<Event>)
    requires Enabled(s, e.action) && !IsLate(e.action) && Leaves(Next(s, e.now, e.action), rest)
    ensures Leaves(s, [e] + rest)
  {
    assert ([e] + rest)[1..] == rest;
  }

  lemma LeavesAtOnce(s: State, e: Event)
    requires Enabled(s, e.action) && !IsLate(e.action) && Disagrees(Next(s, e.now, e.action))
    ensures Leaves(s, [e])
  {
    LeavesAfter(s, e, []);
    assert [e] + [] == [e];
  }

  lemma DrainingLeaves(s: State)
    requires s.pc == Draining && s.task.status == TaskStatus.Completed && s.run == RunCompleted
    ensures Leaves(s, [At(0.0, LayerEnds), At(0.0, FailTask)])
  {
    LeavesAtOnce(s.(pc := Failing), At(0.0, FailTask));
    LeavesAfter(s, At(0.0, LayerEnds), [At(0.0, FailTask)]);
    assert [At(0.0, LayerEnds)] + [At(0.0, FailTask)] == [At(0.0, LayerEnds), At(0.0, FailTask)];
  }

  lemma ExecutedLeaves(s: State)
    requires s.pc == Executing && s.task.Terminal() && s.run == Outcome(s.task)
    ensures Leaves(s, Executed(s.run))
  {
    if s.run == RunFailed {
      LeavesAtOnce(s, At(0.0, AllNodesSucceed));
    } else {
      DrainingLeaves(s.(pc := Draining));
      LeavesAfter(s, At(0.0, NodeFails), [At(0.0, LayerEnds), At(0.0, FailTask)]);
      assert [At(0.0, NodeFails)] + [At(0.0, LayerEnds), At(0.0, FailTask)] == Executed(s.run);
    }
  }

  /** `s` is a state right after a sweep that has settled the run. */
  lemma ContinuationLeaves(s: State)
    requires s.task.Terminal() && s.run == Outcome(s.task) && s.pc != Done && !Harmless(s)
    ensures Leaves(s, Continuation(s))
  {
    match s.pc
    case Starting =>
      ExecutedLeaves(s.(pc := Executing));
      LeavesAfter(s, At(0.0, Begin(0)), Executed(s.run));
    case Executing => ExecutedLeaves(s);
    case Completing =>
      if s.run == RunFailed {
        LeavesAtOnce(s, At(0.0, CompleteRun));
      } else {
        LeavesAtOnce(s.(pc := Failing), At(0.0, FailTask));
        LeavesAfter(s, At(0.0, CompletionRaises), [At(0.0, FailTask)]);
        assert [At(0.0, CompletionRaises)] + [At(0.0, FailTask)] == Continuation(s);
      }
    case Draining => DrainingLeaves(s);
    case Failing => LeavesAtOnce(s, At(0.0, FailTask));
    case Closing => LeavesAtOnce(s, At(0.0, FailRun));
  }

  /** Whatever happened before, a sweep that writes the run opens the way to such a stop, without any late write of
      others, if and only if it comes before the executor has taken the path of failure or while the task is
      COMPLETED. */
  lemma SweepAllowsDisagreementIff(before: seq<Event>, now: Time)
    requires AllEnabled(Created, before)
    requires Swept(Run(Created, before), now).run != Run(Created, before).run
    ensures var s := Run(Created, before);
            var swept := Swept(s, now);
            CanDisagree(swept) <==> !Harmless(s)
  {
    var s := Run(Created, before);
    var swept := Swept(s, now);
    SoundRun(Created, before);
    SweptRunAgrees(s, now);
    if Harmless(s) {
      forall acts | AllEnabled(swept, acts) && NoLateWrites(swept, acts)
        ensures !Disagrees(Run(swept, acts))
      {
        SettledRun(swept, acts);
      }
    } else {
      ContinuationLeaves(swept);
    }
  }

  lemma SweptRunAgrees(s: State, now: Time)
    requires Swept(s, now).run != s.run
    ensures var n := Swept(s, now);
            && s.run == RunRunning && n.task.Terminal() && n.run == Outcome(n.task) && n.pc == s.pc
            && (n.task.status == TaskStatus.Completed <==> s.task.status == TaskStatus.Completed)
  {
  }

  /** So in a run in which task and run disagree, some sweep that wrote the run came too early, or somebody wrote
      late. */
  lemma DisagreementNeedsEarlySweep(acts: seq<Event>)
    requires AllEnabled(Created, acts) && Disagrees(Run(Created, acts))
    ensures !Timely(Created, acts)
  {
    if Timely(Created, acts) {
      SafeRun(Created, acts);
    }
  }

  /** The exception is real: a task cancelled before its executor starts is executed without a lease, and an
      approval makes it active again. No sweep touches it; only a restart makes it pending. */
  lemma CancelledBeforeStartStaysActive(token: Token, t: Time, now: Time)
    ensures var acts := [At(t, UserCancels), At(t, Begin(token)), At(t, Suspend), At(t, Approve)];
            var s := State(Executing, Task(Running, None, None, None), RunRunning);
            && AllEnabled(Created, acts) && Run(Created, acts) == s && Swept(s, now) == s
            && Effect(s.task, Timed(now, Restart)).status == Pending
  {
    var none := Task(Pending, None, None, None);
    var s1 := State(Starting, none.(status := Cancelled), RunRunning);
    var s2 := State(Executing, none.(status := Cancelled), RunRunning);
    var s3 := State(Executing, none.(status := WaitingApproval), RunRunning);
    var s4 := State(Executing, none.(status := Running), RunRunning);
    FourEvents(Created, At(t, UserCancels), s1, At(t, Begin(token)), s2, At(t, Suspend), s3, At(t, Approve), s4);
  }

  /** So is the other: of two approval nodes in a layer one is rejected, a sweep settles the run as failed, and the
      other is approved before the executor fails the task. */
  lemma ApprovedWhileDraining(token: Token, t: Time, now: Time)
    ensures var acts := [At(t, Begin(token)), At(t, Suspend), At(t, Reject)] + [At(t, Sweeps), At(t, Approve)];
            var s := State(Draining, Task(Running, None, None, None), RunFailed);
            && AllEnabled(Created, acts) && Timely(Created, acts) && Run(Created, acts) == s && Swept(s, now) == s
  {
    var s1 := State(Executing, Task(Running, Some(token), Some(t + LEASE_DURATION), None), RunRunning);
    var s2 := s1.(task := s1.task.(status := WaitingApproval));
    var s3 := State(Draining, Task(TaskStatus.Failed, None, None, None), RunRunning);
    var s4 := s3.(run := RunFailed);
    var s5 := s4.(task := s4.task.(status := Running));
    var a, b := [At(t, Begin(token)), At(t, Suspend), At(t, Reject)], [At(t, Sweeps), At(t, Approve)];
    ThreeEvents(Created, a[0], s1, a[1], s2, a[2], s3);
    TwoEvents(s3, b[0], s4, b[1], s5);
    RunJoins(Created, a, b);
    TimelyThree(Created, a[0], s1, a[1], s2, a[2], s3, b);
    assert [b[0]] + [b[1]] == b;
    TimelyFirst(s3, b[0], [b[1]]);
    TimelyFirst(s4, b[1], []);
    assert [b[1]] + [] == [b[1]];
  }

  lemma TwoEvents(s: State, a: Event, s1: State, b: Event, s2: State)
    requires Leads(s, a, s1) && Leads(s1, b, s2)
    ensures AllEnabled(s, [a, b]) && Run(s, [a, b]) == s2
  {
    assert [a, b] == [a] + ([b] + []);
    RunFirst(s, a, [b] + []);
    RunFirst(s1, b, []);
  }

  lemma TimelyFirst(s: State, e: Event, rest: seq<Event>)
    ensures Timely(s, [e] + rest)
            <==> && (IsLate(e.action) ==> Next(s, e.now, e.action) == s)
                 && (e.action == Sweeps ==> Swept(s, e.now) == s || Harmless(s))
                 && Timely(Next(s, e.now, e.action), rest)
  {
    assert ([e] + rest)[1..] == rest;
  }

  lemma TimelyThree(s: State, a: Event, s1: State, b: Event, s2: State, c: Event, s3: State, rest: seq<Event>)
    requires Leads(s, a, s1) && Leads(s1, b, s2) && Leads(s2, c, s3)
    requires !IsLate(a.action) && !IsLate(b.action) && !IsLate(c.action)
    requires a.action != Sweeps && b.action != Sweeps && c.action != Sweeps
    ensures Timely(s, [a, b, c] + rest) <==> Timely(s3, rest)
  {
    assert [a, b, c] + rest == [a] + ([b] + ([c] + rest));
    TimelyFirst(s, a, [b] + ([c] + rest));
    TimelyFirst(s1, b, [c] + rest);
    TimelyFirst(s2, c, rest);
  }

  // ---- An executor that goes on after a sweep

  predicate Consistent(s: State) {
    && (s.pc == Completing ==> s.task.status == TaskStatus.Completed)
    && (s.pc == Closing ==> s.task.status in {TaskStatus.Failed, Cancelled})
    && (s.pc == Done ==> s.task.Terminal() && s.run != RunRunning)
    && (s.task.status == TaskStatus.Completed ==> s.pc in {Completing, Failing, Done})
    && (s.pc !in {Completing, Failing, Closing} && s.task.Terminal() ==>
          s.run == RunRunning || s.run == Outcome(s.task))
    && (s.pc in {Starting, Executing, Draining} ==> s.run != RunCompleted)
  }

  lemma {:induction false} ConsistentRun(s: State, acts: seq<Event>)
    requires Consistent(s) && AllEnabled(s, acts) && NoLateWrites(s, acts)
    ensures Consistent(Run(s, acts))
    decreases |acts|
  {
    if acts != [] {
      assert Consistent(Next(s, acts[0].now, acts[0].action));
      ConsistentRun(Next(s, acts[0].now, acts[0].action), acts[1..]);
    }
  }

  /** Even with sweeps at any time, also under a live executor, a terminal task and its run disagree after a sweep only
      if the executor stopped between its terminal commits or somebody wrote late; an executor that finishes leaves
      nothing to sweep then. */
  lemma DisagreementOnlyBetweenCommits(acts: seq<Event>, now: Time)
    requires AllEnabled(Created, acts) && Swept(Run(Created, acts), now).task.Terminal()
    ensures var s := Swept(Run(Created, acts), now);
            || s.run == Outcome(s.task)
            || s.pc in {Completing, Failing, Closing}
            || !NoLateWrites(Created, acts)
    ensures Run(Created, acts).pc == Done && NoLateWrites(Created, acts) ==>
              Swept(Run(Created, acts), now) == Run(Created, acts)
  {
    if NoLateWrites(Created, acts) {
      ConsistentRun(Created, acts);
    }
  }

  /** ... and there it can. No lease has to expire for it: a cancellation is enough for the sweep to settle the run, and
      the executor, which has not noticed, completes the task and stops. */
  lemma CancelledRunDisagrees(token: Token, t: Time, now: Time)
    ensures var acts := [At(t, Begin(token)), At(t, UserCancels), At(t, Sweeps), At(t, AllNodesSucceed)];
            var s := Run(Created, acts);
            AllEnabled(Created, acts) && Disagrees(s) && Swept(s, now) == s
  {
    var s1 := State(Executing, Task(Running, Some(token), Some(t + LEASE_DURATION), None), RunRunning);
    var s2 := s1.(task := s1.task.(status := Cancelled));
    var s3 := s2.(run := RunFailed);
    var s4 := State(Completing, Task(TaskStatus.Completed, None, None, None), RunFailed);
    FourEvents(Created, At(t, Begin(token)), s1, At(t, UserCancels), s2, At(t, Sweeps), s3, At(t, AllNodesSucceed), s4);
    DisagreementStays(s4, now);
  }

  /** It also happens to a stalled executor: one whose lease was swept completes the task and stops before it writes
      the run. No later sweep repairs that. */
  lemma RevivedExecutorDisagrees(token: Token, t: Time, late: Time, now: Time)
    requires t + LEASE_DURATION < late
    ensures var acts := [At(t, Begin(token)), At(late, Sweeps), At(late, AllNodesSucceed)];
            var s := Run(Created, acts);
            AllEnabled(Created, acts) && Disagrees(s) && Swept(s, now) == s
  {
    var s1 := State(Executing, Task(Running, Some(token), Some(t + LEASE_DURATION), None), RunRunning);
    var s2 := State(Executing, Reclaimed(s1.task), RunFailed);
    var s3 := State(Completing, s2.task.(status := TaskStatus.Completed), RunFailed);
    StalledLeaseIsSwept(s1, s2, late);
    ThreeEvents(Created, At(t, Begin(token)), s1, At(late, Sweeps), s2, At(late, AllNodesSucceed), s3);
    DisagreementStays(s3, now);
  }

  lemma StalledLeaseIsSwept(s: State, n: State, now: Time)
    requires s.task.Active() && s.task.ExpiredAt(now) && s.run == RunRunning
    requires n == s.(task := Reclaimed(s.task), run := RunFailed)
    ensures Swept(s, now) == n
  {
  }

  // ---- Late writes

  /** A failed workflow is resumed, and the orchestrator completes the task: its run stays failed. */
  lemma ResumedRunDisagrees(first: Token, second: Token, t: Time, now: Time)
    ensures var acts := [At(t, Begin(first)), At(t, NodeFails), At(t, LayerEnds), At(t, FailTask)]
                        + [At(t, FailRun), At(t, Other(Resume)), At(t, Other(Claim(second))),
                           At(t, Other(SetStatus(TaskStatus.Completed, Some(second))))];
            var s := Run(Created, acts);
            AllEnabled(Created, acts) && NoSweeps(acts) && s.pc == Done && Disagrees(s) && Swept(s, now) == s
  {
    var s1 := State(Executing, Task(Running, Some(first), Some(t + LEASE_DURATION), None), RunRunning);
    var s2 := s1.(pc := Draining);
    var s3 := s1.(pc := Failing);
    var s4 := State(Closing, Task(TaskStatus.Failed, None, None, None), RunRunning);
    var s5 := s4.(pc := Done, run := RunFailed);
    var s6 := s5.(task := s5.task.(status := Pending));
    var s7 := s5.(task := Task(Running, Some(second), Some(t + LEASE_DURATION), None));
    var s8 := s5.(task := Task(TaskStatus.Completed, None, None, None));
    var own := [At(t, Begin(first)), At(t, NodeFails), At(t, LayerEnds), At(t, FailTask)];
    var rest := [At(t, FailRun), At(t, Other(Resume)), At(t, Other(Claim(second))),
                 At(t, Other(SetStatus(TaskStatus.Completed, Some(second))))];
    FourEvents(Created, own[0], s1, own[1], s2, own[2], s3, own[3], s4);
    FourEvents(s4, rest[0], s5, rest[1], s6, rest[2], s7, rest[3], s8);
    RunJoins(Created, own, rest);
    DisagreementStays(s8, now);
  }

  predicate NoSweeps(acts: seq<Event>) {
    forall i :: 0 <= i < |acts| ==> !acts[i].action.Sweeps?
  }

  /** A cancellation that read the running task commits after the executor has finished. */
  lemma LateCancelDisagrees(token: Token, t: Time, now: Time)
    ensures var acts := [At(t, Begin(token)), At(t, AllNodesSucceed), At(t, CompleteRun),
                         At(t, Other(SetStatus(Cancelled, None)))];
            var s := Run(Created, acts);
            AllEnabled(Created, acts) && NoSweeps(acts) && s.pc == Done && Disagrees(s) && Swept(s, now) == s
  {
    var s1 := State(Executing, Task(Running, Some(token), Some(t + LEASE_DURATION), None), RunRunning);
    var s2 := State(Completing, Task(TaskStatus.Completed, None, None, None), RunRunning);
    var s3 := s2.(pc := Done, run := RunCompleted);
    var s4 := s3.(task := s3.task.(status := Cancelled));
    FourEvents(Created, At(t, Begin(token)), s1, At(t, AllNodesSucceed), s2, At(t, CompleteRun), s3,
               At(t, Other(SetStatus(Cancelled, None))), s4);
    DisagreementStays(s4, now);
  }

  /** The write of the approval endpoint commits after the executor has finished: the task is active without a lease,
      its run completed. No sweep touches that; only a restart makes the task pending. */
  lemma LateApprovalReactivates(token: Token, t: Time, now: Time)
    ensures var acts := [At(t, Begin(token)), At(t, Suspend), At(t, Approve)]
                        + [At(t, AllNodesSucceed), At(t, CompleteRun), At(t, Other(SetStatus(Running, None)))];
            var s := State(Done, Task(Running, None, None, None), RunCompleted);
            && AllEnabled(Created, acts) && NoSweeps(acts) && Run(Created, acts) == s && Swept(s, now) == s
            && Effect(s.task, Timed(now, Restart)).status == Pending
  {
    var s1 := State(Executing, Task(Running, Some(token), Some(t + LEASE_DURATION), None), RunRunning);
    var s2 := s1.(task := s1.task.(status := WaitingApproval));
    var s4 := State(Completing, Task(TaskStatus.Completed, None, None, None), RunRunning);
    var s5 := s4.(pc := Done, run := RunCompleted);
    var s6 := s5.(task := s5.task.(status := Running));
    var a, b := [At(t, Begin(token)), At(t, Suspend), At(t, Approve)],
                [At(t, AllNodesSucceed), At(t, CompleteRun), At(t, Other(SetStatus(Running, None)))];
    ThreeEvents(Created, a[0], s1, a[1], s2, a[2], s1);
    ThreeEvents(s1, b[0], s4, b[1], s5, b[2], s6);
    RunJoins(Created, a, b);
  }
}
