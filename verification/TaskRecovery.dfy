/** `recover_unfinished_tasks`: what a restarted process does with the tasks its predecessor left. */
module TaskRecovery {
  import opened Wrappers
  import opened TaskLease

  const MAX_RUNNING_TASKS_PER_WORKSPACE := 3

  /** A task row; the table lists them by ascending id. */
  datatype Row = Row(id: int, workspace: int, task: Task)

  predicate Abandoned(r: Row, now: Time) {
    r.task.status == Running && (r.task.expiresAt.None? || r.task.ExpiredAt(now))
  }

  function PendingRows(rows: seq<Row>): seq<Row> {
    if rows == [] then []
    else
      var n := |rows| - 1;
      PendingRows(rows[..n]) + if rows[n].task.status == Pending then [rows[n]] else []
  }

  function AbandonedRows(rows: seq<Row>, now: Time): seq<Row> {
    if rows == [] then []
    else
      var n := |rows| - 1;
      AbandonedRows(rows[..n], now) + if Abandoned(rows[n], now) then [rows[n]] else []
  }

  /** Every row after the restart. */
  function Restarted(rows: seq<Row>, now: Time): (r: seq<Row>)
    ensures |r| == |rows|
  {
    seq(|rows|, i requires 0 <= i < |rows| => rows[i].(task := Effect(rows[i].task, Timed(now, Restart))))
  }

  function RunningIn(rows: seq<Row>, workspace: int): nat {
    if rows == [] then 0
    else RunningIn(rows[..|rows| - 1], workspace) +
         if rows[|rows| - 1].task.status == Running && rows[|rows| - 1].workspace == workspace then 1 else 0
  }

  /** The rows of one workspace, in order. */
  function Of(rows: seq<Row>, workspace: int): seq<Row> {
    if rows == [] then []
    else
      var front := Of(rows[..|rows| - 1], workspace);
      if rows[|rows| - 1].workspace == workspace then front + [rows[|rows| - 1]] else front
  }

  function Available(running: map<int, nat>, workspace: int): int {
    MAX_RUNNING_TASKS_PER_WORKSPACE - if workspace in running then running[workspace] else 0
  }

  /** The first rows of one workspace, as many as there is room for. */
  function FirstOf(rows: seq<Row>, room: int): seq<Row> {
    if room <= 0 then [] else if |rows| <= room then rows else rows[..room]
  }

  lemma OfSnoc(rows: seq<Row>, r: Row, workspace: int)
    ensures Of(rows + [r], workspace)
            == if r.workspace == workspace then Of(rows, workspace) + [r] else Of(rows, workspace)
  {
    assert (rows + [r])[..|rows|] == rows;
  }

  /** Each workspace has dispatched what it has room for among the rows looked at. */
  ghost predicate Filled(tasks: seq<Row>, running: map<int, nat>, dispatched: seq<Row>) {
    forall w :: Of(dispatched, w) == FirstOf(Of(tasks, w), Available(running, w))
  }

  ghost predicate Counts(dispatched: seq<Row>, counters: map<int, nat>) {
    forall w :: |Of(dispatched, w)| == if w in counters then counters[w] else 0
  }

  lemma FirstOfSnoc(rows: seq<Row>, r: Row, room: int)
    ensures FirstOf(rows + [r], room) == if |FirstOf(rows, room)| >= room then FirstOf(rows, room)
                                         else FirstOf(rows, room) + [r]
  {
    if 0 < room <= |rows| {
      assert (rows + [r])[..room] == rows[..room];
    }
  }

  lemma DispatchOne(tasks: seq<Row>, running: map<int, nat>, dispatched: seq<Row>, t: Row)
    requires Filled(tasks, running, dispatched)
    ensures if |Of(dispatched, t.workspace)| >= Available(running, t.workspace)
            then Filled(tasks + [t], running, dispatched)
            else Filled(tasks + [t], running, dispatched + [t])
  {
    var full := |Of(dispatched, t.workspace)| >= Available(running, t.workspace);
    var after := if full then dispatched else dispatched + [t];
    forall w
      ensures Of(after, w) == FirstOf(Of(tasks + [t], w), Available(running, w))
    {
      assert Of(dispatched, w) == FirstOf(Of(tasks, w), Available(running, w));
      OfSnoc(tasks, t, w);
      OfSnoc(dispatched, t, w);
      FirstOfSnoc(Of(tasks, w), t, Available(running, w));
    }
    assert Filled(tasks + [t], running, after);
  }

  lemma CountOne(dispatched: seq<Row>, counters: map<int, nat>, t: Row)
    requires Counts(dispatched, counters)
    ensures var w := t.workspace;
            Counts(dispatched + [t], counters[w := (if w in counters then counters[w] else 0) + 1])
  {
    forall w
      ensures |Of(dispatched + [t], w)| == |Of(dispatched, w)| + if w == t.workspace then 1 else 0
    {
      OfSnoc(dispatched, t, w);
    }
    assert forall w :: |Of(dispatched, w)| == if w in counters then counters[w] else 0;
  }

  /** The loop over the tasks: each workspace gets its first tasks in order, and no more than fit. */
  method Dispatch(tasks: seq<Row>, running: map<int, nat>) returns (dispatched: seq<Row>)
    ensures Filled(tasks, running, dispatched)
  {
    dispatched := [];
    var counters: map<int, nat> := map[];
    for i := 0 to |tasks|
      invariant Filled(tasks[..i], running, dispatched) && Counts(dispatched, counters)
    {
      var t := tasks[i];
      DispatchOne(tasks[..i], running, dispatched, t);
      assert tasks[..i + 1] == tasks[..i] + [t];
      assert |Of(dispatched, t.workspace)| == if t.workspace in counters then counters[t.workspace] else 0;
      if (if t.workspace in counters then counters[t.workspace] else 0) < Available(running, t.workspace) {
        CountOne(dispatched, counters, t);
        dispatched := dispatched + [t];
        counters := counters[t.workspace := (if t.workspace in counters then counters[t.workspace] else 0) + 1];
      }
    }
    assert tasks[..|tasks|] == tasks;
  }

  method CountRunning(rows: seq<Row>) returns (running: map<int, nat>)
    ensures forall w :: RunningIn(rows, w) == if w in running then running[w] else 0
  {
    running := map[];
    for i := 0 to |rows|
      invariant forall w :: RunningIn(rows[..i], w) == if w in running then running[w] else 0
    {
      assert rows[..i + 1][..i] == rows[..i];
      var r := rows[i];
      if r.task.status == Running {
        running := running[r.workspace := (if r.workspace in running then running[r.workspace] else 0) + 1];
      }
    }
    assert rows[..|rows|] == rows;
  }

  /** Abandoned tasks become pending without their lease; then the pending tasks and after them the abandoned ones are
      dispatched, workspace by workspace as far as there is room beside what still runs. */
  method RecoverUnfinishedTasks(rows: seq<Row>, now: Time) returns (after: seq<Row>, dispatched: seq<Row>)
    ensures after == Restarted(rows, now)
    ensures forall w :: Of(dispatched, w) == FirstOf(Of(PendingRows(rows) + AbandonedRows(rows, now), w),
                                                     MAX_RUNNING_TASKS_PER_WORKSPACE - RunningIn(after, w))
  {
    after := [];
    for i := 0 to |rows|
      invariant after == Restarted(rows[..i], now)
    {
      var r := rows[i];
      if r.task.status == Running && (r.task.expiresAt.None? || r.task.expiresAt.value < now) {
        r := r.(task := r.task.(status := Pending).Released());
      }
      after := after + [r];
      assert Restarted(rows[..i + 1], now) == Restarted(rows[..i], now) + [r];
    }
    assert rows[..|rows|] == rows;
    var running := CountRunning(after);
    dispatched := Dispatch(PendingRows(rows) + AbandonedRows(rows, now), running);
    assert Filled(PendingRows(rows) + AbandonedRows(rows, now), running, dispatched);
    forall w
      ensures Available(running, w) == MAX_RUNNING_TASKS_PER_WORKSPACE - RunningIn(after, w)
    {
    }
  }

  lemma FirstOfFills(rows: seq<Row>, unfinished: nat, running: nat, started: seq<Row>)
    requires started == FirstOf(rows, MAX_RUNNING_TASKS_PER_WORKSPACE - running) && unfinished == |rows|
    ensures running + |started| <= Max(MAX_RUNNING_TASKS_PER_WORKSPACE, running)
    ensures running + |started| < MAX_RUNNING_TASKS_PER_WORKSPACE ==> |started| == unfinished
  {
  }

  /** A restart never starts more tasks in a workspace than fit beside those that still run, and it leaves room unused
      only if every unfinished task of the workspace was dispatched. */
  lemma RestartFillsExactly(rows: seq<Row>, now: Time, dispatched: seq<Row>, workspace: int)
    requires Of(dispatched, workspace) == FirstOf(Of(PendingRows(rows) + AbandonedRows(rows, now), workspace),
                                                  MAX_RUNNING_TASKS_PER_WORKSPACE
                                                  - RunningIn(Restarted(rows, now), workspace))
    ensures var running := RunningIn(Restarted(rows, now), workspace);
            var unfinished := |Of(PendingRows(rows), workspace)| + |Of(AbandonedRows(rows, now), workspace)|;
            && running + |Of(dispatched, workspace)| <= Max(MAX_RUNNING_TASKS_PER_WORKSPACE, running)
            && (running + |Of(dispatched, workspace)| < MAX_RUNNING_TASKS_PER_WORKSPACE ==>
                  |Of(dispatched, workspace)| == unfinished)
  {
    var pending, abandoned := PendingRows(rows), AbandonedRows(rows, now);
    OfBoth(pending, abandoned, workspace);
    FirstOfFills(Of(pending + abandoned, workspace), |Of(pending, workspace)| + |Of(abandoned, workspace)|,
                 RunningIn(Restarted(rows, now), workspace), Of(dispatched, workspace));
  }

  lemma {:induction false} OfBoth(a: seq<Row>, b: seq<Row>, workspace: int)
    ensures Of(a + b, workspace) == Of(a, workspace) + Of(b, workspace)
  {
    if b == [] {
      assert a + b == a;
    } else {
      var front := b[..|b| - 1];
      OfBoth(a, front, workspace);
      assert (a + b)[..|a + b| - 1] == a + front;
    }
  }
}
