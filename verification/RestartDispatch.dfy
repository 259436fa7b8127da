/** Which of the tasks its predecessor left a restarted process dispatches, and in which order. */
module RestartDispatch {
  import opened Wrappers
  import opened TaskLease
  import opened TaskRecovery

  // The statements are about any `dispatched` that meets the contract of `RecoverUnfinishedTasks`; they count rows of
  // the table.

  /** Pending (`first`), or running without an unexpired lease. */
  predicate Unfinished(t: Task, now: Time, first: bool) {
    if first then t.status == Pending
    else t.status == Running && (t.expiresAt.Some? ==> t.expiresAt.value < now)
  }

  /** The places before `n` of the unfinished rows of a workspace. */
  function Places(rows: seq<Row>, n: nat, w: int, now: Time, first: bool): set<int>
    requires n <= |rows|
  {
    set j | 0 <= j < n && rows[j].workspace == w && Unfinished(rows[j].task, now, first)
  }

  /** The places of the rows of a workspace that are still running. */
  function RunningPlaces(rows: seq<Row>, w: int, now: Time): set<int> {
    set j | 0 <= j < |rows| && rows[j].workspace == w && rows[j].task.status == Running
            && rows[j].task.expiresAt.Some? && now <= rows[j].task.expiresAt.value
  }

  ghost predicate Ascending(rows: seq<Row>) {
    forall i, j :: 0 <= i < j < |rows| ==> rows[i].id < rows[j].id
  }

  function Select(rows: seq<Row>, w: int, now: Time, first: bool): seq<Row> {
    if rows == [] then []
    else
      var n := |rows| - 1;
      var front := Select(rows[..n], w, now, first);
      if rows[n].workspace == w && Unfinished(rows[n].task, now, first) then front + [rows[n]] else front
  }

  lemma OfMaybe(front: seq<Row>, r: Row, w: int, keep: bool)
    ensures Of(front + if keep then [r] else [], w)
            == if keep && r.workspace == w then Of(front, w) + [r] else Of(front, w)
  {
    OfSnoc(front, r, w);
    assert front + [] == front;
  }

  lemma {:induction false} SelectIsOf(rows: seq<Row>, w: int, now: Time)
    ensures Of(PendingRows(rows), w) == Select(rows, w, now, true)
    ensures Of(AbandonedRows(rows, now), w) == Select(rows, w, now, false)
  {
    if rows != [] {
      var n := |rows| - 1;
      SelectIsOf(rows[..n], w, now);
      OfMaybe(PendingRows(rows[..n]), rows[n], w, rows[n].task.status == Pending);
      OfMaybe(AbandonedRows(rows[..n], now), rows[n], w, Abandoned(rows[n], now));
    }
  }

  lemma PlacesStep(rows: seq<Row>, n: nat, w: int, now: Time, first: bool)
    requires n < |rows|
    ensures Places(rows, n, w, now, first) == Places(rows[..n], n, w, now, first)
    ensures |Places(rows, n + 1, w, now, first)|
            == |Places(rows, n, w, now, first)|
               + if rows[n].workspace == w && Unfinished(rows[n].task, now, first) then 1 else 0
  {
    var before, after := Places(rows, n, w, now, first), Places(rows, n + 1, w, now, first);
    assert after == before + if rows[n].workspace == w && Unfinished(rows[n].task, now, first) then {n as int} else {};
  }

  lemma PlacesOfPrefix(rows: seq<Row>, n: nat, i: nat, w: int, now: Time, first: bool)
    requires i <= n <= |rows|
    ensures Places(rows[..n], i, w, now, first) == Places(rows, i, w, now, first)
  {
  }

  lemma {:induction false} SelectSize(rows: seq<Row>, w: int, now: Time, first: bool)
    ensures |Select(rows, w, now, first)| == |Places(rows, |rows|, w, now, first)|
  {
    if rows != [] {
      SelectSize(rows[..|rows| - 1], w, now, first);
      PlacesStep(rows, |rows| - 1, w, now, first);
    }
  }

  /** An unfinished row stands behind those that are before it in the table. */
  lemma {:induction false} SelectPlace(rows: seq<Row>, w: int, now: Time, first: bool, i: nat)
    requires i < |rows| && rows[i].workspace == w && Unfinished(rows[i].task, now, first)
    ensures var k := |Places(rows, i, w, now, first)|;
            k < |Select(rows, w, now, first)| && Select(rows, w, now, first)[k] == rows[i]
  {
    var n := |rows| - 1;
    SelectSize(rows[..n], w, now, first);
    PlacesOfPrefix(rows, n, n, w, now, first);
    if i < n {
      SelectPlace(rows[..n], w, now, first, i);
      PlacesOfPrefix(rows, n, i, w, now, first);
    }
  }

  lemma {:induction false} SelectFrom(rows: seq<Row>, w: int, now: Time, first: bool, k: nat) returns (i: nat)
    requires k < |Select(rows, w, now, first)|
    ensures i < |rows| && rows[i].workspace == w && Unfinished(rows[i].task, now, first)
    ensures Select(rows, w, now, first)[k] == rows[i] && k == |Places(rows, i, w, now, first)|
  {
    var n := |rows| - 1;
    SelectSize(rows[..n], w, now, first);
    PlacesOfPrefix(rows, n, n, w, now, first);
    if k < |Select(rows[..n], w, now, first)| {
      i := SelectFrom(rows[..n], w, now, first, k);
      PlacesOfPrefix(rows, n, i, w, now, first);
    } else {
      i := n;
    }
  }

  lemma {:induction false} RunningCount(rows: seq<Row>, w: int, now: Time)
    ensures RunningIn(Restarted(rows, now), w) == |RunningPlaces(rows, w, now)|
  {
    if rows != [] {
      var n := |rows| - 1;
      RunningCount(rows[..n], w, now);
      assert Restarted(rows, now)[..n] == Restarted(rows[..n], now);
      var front, all := RunningPlaces(rows[..n], w, now), RunningPlaces(rows, w, now);
      assert all == front + if n in all then {n as int} else {};
    }
  }

  /** The rows of a workspace keep their order. */
  lemma {:induction false} OfPlaces(rows: seq<Row>, w: int, b: nat) returns (k: nat)
    requires b < |rows| && rows[b].workspace == w
    ensures k < |Of(rows, w)| && Of(rows, w)[k] == rows[b] && k == |Of(rows[..b], w)|
  {
    var n := |rows| - 1;
    if b < n {
      k := OfPlaces(rows[..n], w, b);
      assert rows[..n][..b] == rows[..b];
    } else {
      k := |Of(rows[..n], w)|;
    }
  }

  lemma {:induction false} OfHolds(rows: seq<Row>, w: int, k: nat) returns (b: nat)
    requires k < |Of(rows, w)|
    ensures b < |rows| && rows[b] == Of(rows, w)[k] && rows[b].workspace == w
  {
    var n := |rows| - 1;
    if k < |Of(rows[..n], w)| {
      b := OfHolds(rows[..n], w, k);
    } else {
      b := n;
    }
  }

  lemma {:induction false} OfGrows(rows: seq<Row>, w: int, a: nat, b: nat)
    requires a < b <= |rows| && rows[a].workspace == w
    ensures |Of(rows[..a], w)| < |Of(rows[..b], w)|
    decreases b
  {
    assert rows[..b][..b - 1] == rows[..b - 1];
    if a < b - 1 {
      OfGrows(rows, w, a, b - 1);
    }
  }

  /** What a workspace gets is the front of its pending rows followed by its abandoned ones. */
  lemma WorkspaceGets(rows: seq<Row>, now: Time, dispatched: seq<Row>, w: int)
    requires Of(dispatched, w) == FirstOf(Of(PendingRows(rows) + AbandonedRows(rows, now), w),
                                          MAX_RUNNING_TASKS_PER_WORKSPACE - RunningIn(Restarted(rows, now), w))
    ensures Of(dispatched, w) == FirstOf(Select(rows, w, now, true) + Select(rows, w, now, false),
                                         3 - |RunningPlaces(rows, w, now)|)
  {
    QueueOf(rows, PendingRows(rows), AbandonedRows(rows, now), now, w);
    RunningCount(rows, w, now);
  }

  lemma QueueOf(rows: seq<Row>, pending: seq<Row>, abandoned: seq<Row>, now: Time, w: int)
    requires pending == PendingRows(rows) && abandoned == AbandonedRows(rows, now)
    ensures Of(pending + abandoned, w) == Select(rows, w, now, true) + Select(rows, w, now, false)
  {
    OfBoth(pending, abandoned, w);
    SelectIsOf(rows, w, now);
  }

  /** The place of row `i` among the unfinished rows of its workspace. */
  function Turn(rows: seq<Row>, i: nat, now: Time): nat
    requires i < |rows|
  {
    var w := rows[i].workspace;
    if rows[i].task.status == Pending then |Places(rows, i, w, now, true)|
    else |Places(rows, |rows|, w, now, true)| + |Places(rows, i, w, now, false)|
  }

  lemma AtItsTurn(rows: seq<Row>, i: nat, now: Time)
    requires i < |rows| && (Unfinished(rows[i].task, now, true) || Unfinished(rows[i].task, now, false))
    ensures var w := rows[i].workspace;
            var all := Select(rows, w, now, true) + Select(rows, w, now, false);
            Turn(rows, i, now) < |all| && all[Turn(rows, i, now)] == rows[i]
  {
    var w := rows[i].workspace;
    SelectSize(rows, w, now, true);
    SelectPlace(rows, w, now, rows[i].task.status == Pending, i);
  }

  lemma WhoseTurn(rows: seq<Row>, w: int, now: Time, k: nat) returns (i: nat)
    requires k < |Select(rows, w, now, true) + Select(rows, w, now, false)|
    ensures i < |rows| && rows[i] == (Select(rows, w, now, true) + Select(rows, w, now, false))[k]
    ensures rows[i].workspace == w && k == Turn(rows, i, now)
    ensures Unfinished(rows[i].task, now, true) || Unfinished(rows[i].task, now, false)
  {
    var pending := |Select(rows, w, now, true)|;
    SelectSize(rows, w, now, true);
    if k < pending {
      i := SelectFrom(rows, w, now, true, k);
    } else {
      i := SelectFrom(rows, w, now, false, k - pending);
    }
  }

  /** Every dispatched row is a row of the table that is pending, or running without a lease or with an expired one. */
  lemma DispatchedRow(rows: seq<Row>, now: Time, dispatched: seq<Row>, a: nat) returns (i: nat)
    requires a < |dispatched|
    requires forall w :: Of(dispatched, w) == FirstOf(Of(PendingRows(rows) + AbandonedRows(rows, now), w),
                                                      MAX_RUNNING_TASKS_PER_WORKSPACE
                                                      - RunningIn(Restarted(rows, now), w))
    ensures i < |rows| && dispatched[a] == rows[i] && Turn(rows, i, now) == |Of(dispatched[..a], rows[i].workspace)|
    ensures || rows[i].task.status == Pending
            || (rows[i].task.status == Running && (rows[i].task.expiresAt.Some? ==> rows[i].task.expiresAt.value < now))
  {
    var w := dispatched[a].workspace;
    WorkspaceGets(rows, now, dispatched, w);
    var k := OfPlaces(dispatched, w, a);
    i := WhoseTurn(rows, w, now, k);
  }

  lemma SameRow(rows: seq<Row>, i: nat, j: nat)
    requires Ascending(rows) && i < |rows| && j < |rows| && rows[i] == rows[j]
    ensures i == j
  {
  }

  /** An unfinished row is dispatched if and only if those before it and those still running leave room: for a pending
      row the pending ones of its workspace that stand before it in the table, for an abandoned row all the pending ones
      of its workspace and the abandoned ones that stand before it. */
  lemma DispatchedIff(rows: seq<Row>, now: Time, dispatched: seq<Row>, i: nat)
    requires Ascending(rows) && i < |rows|
    requires forall w :: Of(dispatched, w) == FirstOf(Of(PendingRows(rows) + AbandonedRows(rows, now), w),
                                                      MAX_RUNNING_TASKS_PER_WORKSPACE
                                                      - RunningIn(Restarted(rows, now), w))
    ensures var t, w := rows[i].task, rows[i].workspace;
            var running := |RunningPlaces(rows, w, now)|;
            rows[i] in dispatched <==>
              || (t.status == Pending && |Places(rows, i, w, now, true)| + running < 3)
              || (&& t.status == Running && (t.expiresAt.Some? ==> t.expiresAt.value < now)
                  && |Places(rows, |rows|, w, now, true)| + |Places(rows, i, w, now, false)| + running < 3)
  {
    var w := rows[i].workspace;
    WorkspaceGets(rows, now, dispatched, w);
    if rows[i] in dispatched {
      var a :| 0 <= a < |dispatched| && dispatched[a] == rows[i];
      var j := DispatchedRow(rows, now, dispatched, a);
      SameRow(rows, i, j);
      var k := OfPlaces(dispatched, w, a);
    }
    if Unfinished(rows[i].task, now, true) || Unfinished(rows[i].task, now, false) {
      AtItsTurn(rows, i, now);
      if Turn(rows, i, now) < |Of(dispatched, w)| {
        var b := OfHolds(dispatched, w, Turn(rows, i, now));
      }
    }
  }

  /** Within a workspace the pending rows come first and then the abandoned ones, each as in the table. */
  lemma DispatchOrder(rows: seq<Row>, now: Time, dispatched: seq<Row>, a: nat, b: nat) returns (i: nat, j: nat)
    requires a < b < |dispatched| && dispatched[a].workspace == dispatched[b].workspace
    requires forall w :: Of(dispatched, w) == FirstOf(Of(PendingRows(rows) + AbandonedRows(rows, now), w),
                                                      MAX_RUNNING_TASKS_PER_WORKSPACE
                                                      - RunningIn(Restarted(rows, now), w))
    ensures i < |rows| && j < |rows| && dispatched[a] == rows[i] && dispatched[b] == rows[j]
    ensures || (rows[i].task.status == Pending && rows[j].task.status == Running)
            || (rows[i].task.status == rows[j].task.status && i < j)
  {
    i := DispatchedRow(rows, now, dispatched, a);
    j := DispatchedRow(rows, now, dispatched, b);
    OfGrows(dispatched, rows[i].workspace, a, b);
    TurnsAscend(rows, i, j, now);
  }

  lemma PlacesGrow(rows: seq<Row>, i: nat, j: nat, w: int, now: Time, first: bool)
    requires i <= j <= |rows|
    ensures |Places(rows, i, w, now, first)| <= |Places(rows, j, w, now, first)|
    decreases j
  {
    if i < j {
      PlacesGrow(rows, i, j - 1, w, now, first);
      PlacesStep(rows, j - 1, w, now, first);
    }
  }

  lemma TurnsAscend(rows: seq<Row>, i: nat, j: nat, now: Time)
    requires i < |rows| && j < |rows| && rows[i].workspace == rows[j].workspace
    requires Turn(rows, i, now) < Turn(rows, j, now)
    requires Unfinished(rows[i].task, now, true) || Unfinished(rows[i].task, now, false)
    requires Unfinished(rows[j].task, now, true) || Unfinished(rows[j].task, now, false)
    ensures || (rows[i].task.status == Pending && rows[j].task.status == Running)
            || (rows[i].task.status == rows[j].task.status && i < j)
  {
    var w := rows[i].workspace;
    if rows[i].task.status == rows[j].task.status && j <= i {
      PlacesGrow(rows, j, i, w, now, rows[i].task.status == Pending);
    }
    if rows[i].task.status != Pending && rows[j].task.status == Pending {
      PlacesStep(rows, j, w, now, true);
      PlacesGrow(rows, j, |rows|, w, now, true);
    }
  }

  /** What the restart leaves of each row: only a running task without a lease or with an expired one changes, to a
      pending one without a lease. */
  lemma RestartLeaves(rows: seq<Row>, now: Time, i: nat)
    requires i < |rows|
    ensures var r, t := rows[i], rows[i].task;
            Restarted(rows, now)[i] ==
            if t.status == Running && (t.expiresAt.None? || t.expiresAt.value < now)
            then Row(r.id, r.workspace, Task(Pending, None, None, t.result)) else r
  {
  }
}
