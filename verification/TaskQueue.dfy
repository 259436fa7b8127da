/** The persistent task queue of `TaskService`. */
module TaskQueue {
  import opened Wrappers

  // `rows` is the table `task_queue_items` by primary key. Every SQL command is one atomic step; its meaning on the
  // whole table is `Apply`, and the methods are proved against it. A clock reading is a `Time` in seconds, a lease
  // token (a UUID in the source) an opaque `Token`.
  //
  // `enqueue` reads the row of its task and writes later, by primary key and without looking again: `Insert` when it
  // saw no row, and when it saw a live one `Requeue`, which sets the columns that differ from what was `seen` then.
  // `fail` likewise checks the token when it reads and commits its verdict later, by primary key only, as `FailWrite`.

  type Time = real
  type Token = nat

  const MAX_ERROR_LENGTH := 4000
  const CANDIDATE_LIMIT := 10

  datatype Status = Queued | Leased | Completed | Dead

  datatype Item = Item(
    taskId: int,
    priority: int,
    status: Status,
    attempts: nat,
    maxAttempts: int,
    timeoutSeconds: int,
    availableAt: Time,
    token: Option<Token>,
    expiresAt: Option<Time>,
    lastError: Option<string>)
  {
    predicate Terminal() {
      status == Completed || status == Dead
    }

    /** SQL `lease_expires_at < now`: a NULL expiry is never smaller. */
    predicate ExpiredAt(now: Time) {
      expiresAt.Some? && expiresAt.value < now
    }

    predicate OwnedBy(t: Token) {
      status == Leased && token == Some(t)
    }

    /** The guard of the claiming UPDATE, evaluated with the clock of the earlier SELECT. */
    predicate Claimable(selectedAt: Time) {
      attempts < maxAttempts && (status == Queued || ExpiredAt(selectedAt))
    }

    /** The guard of the recovery sweep. */
    predicate Recoverable(now: Time) {
      status == Leased && ExpiredAt(now) && attempts < maxAttempts
    }

    function Unleased(s: Status): Item {
      this.(status := s, token := None, expiresAt := None)
    }
  }

  type Rows = map<int, Item>

  datatype Command =
    | Insert(taskId: int, newId: int, priority: int, maxAttempts: int, timeoutSeconds: int)
    | Requeue(id: int, seen: Status, readAt: Time)
    | Claim(id: int, token: Token, selectedAt: Time, leaseSeconds: int)
    | Renew(id: int, token: Token, leaseSeconds: int)
    | Complete(id: int, token: Token)
    | FailWrite(id: int, token: Token, dead: bool, error: string, availableAt: Time)
    | Recover

  datatype Timed = Timed(now: Time, cmd: Command)

  function Truncate(s: string): string {
    if |s| <= MAX_ERROR_LENGTH then s else s[..MAX_ERROR_LENGTH]
  }

  function Fresh(c: Command, now: Time): Item
    requires c.Insert?
  {
    Item(c.taskId, c.priority, Queued, 0, c.maxAttempts, c.timeoutSeconds, now, None, None, None)
  }

  /** What one command does to the existing row `id`. */
  function Effect(id: int, it: Item, e: Timed): Item {
    match e.cmd
    case Insert(_, _, _, _, _) => it
    case Requeue(i, seen, readAt) =>
      if i != id || seen == Completed || seen == Dead then it
      else if seen == Leased then it.Unleased(Queued).(availableAt := readAt)
      else it.(availableAt := readAt)
    case Claim(i, token, selectedAt, leaseSeconds) =>
      if i == id && it.Claimable(selectedAt)
      then it.(status := Leased,
               attempts := it.attempts + 1,
               token := Some(token),
               expiresAt := Some(selectedAt + Max(leaseSeconds, it.timeoutSeconds) as real))
      else it
    case Renew(i, token, leaseSeconds) =>
      if i == id && it.OwnedBy(token) then it.(expiresAt := Some(e.now + leaseSeconds as real)) else it
    case Complete(i, token) =>
      if i == id && it.OwnedBy(token) then it.Unleased(Completed) else it
    case FailWrite(i, _, dead, error, availableAt) =>
      if i != id then it
      else
        var settled := it.(lastError := Some(Truncate(error)));
        if dead then settled.Unleased(Dead) else settled.Unleased(Queued).(availableAt := availableAt)
    case Recover =>
      if it.Recoverable(e.now) then it.Unleased(Queued).(availableAt := e.now) else it
  }

  /** What `fail` decides to write when it reads the row at `now`. */
  function Verdict(it: Item, id: int, token: Token, error: string, retryDelaySeconds: int, retry: bool, now: Time)
    : (c: Command)
    ensures c.FailWrite? && c.id == id && c.token == token
  {
    FailWrite(id, token, !retry || it.attempts >= it.maxAttempts, error, now + retryDelaySeconds as real)
  }

  predicate HasRowFor(rows: Rows, taskId: int) {
    exists id :: id in rows && rows[id].taskId == taskId
  }

  /** What one command does to the table. An insertion fails when the task has a row by then. */
  function Apply(rows: Rows, e: Timed): Rows {
    var kept := map id | id in rows :: Effect(id, rows[id], e);
    if e.cmd.Insert? && !HasRowFor(rows, e.cmd.taskId) && e.cmd.newId !in rows
    then kept[e.cmd.newId := Fresh(e.cmd, e.now)]
    else kept
  }

  /** A run: the commands of all sessions in commit order. */
  function Run(rows: Rows, es: seq<Timed>): Rows
    decreases |es|
  {
    if es == [] then rows else Run(Apply(rows, es[0]), es[1..])
  }

  lemma {:induction false} RunConcat(rows: Rows, a: seq<Timed>, b: seq<Timed>)
    ensures Run(rows, a + b) == Run(Run(rows, a), b)
    decreases |a|
  {
    if a == [] {
      assert a + b == b;
    } else {
      RunConcat(Apply(rows, a[0]), a[1..], b);
      assert (a + b)[1..] == a[1..] + b;
    }
  }

  lemma RunSnoc(rows: Rows, a: seq<Timed>, e: Timed)
    ensures Run(rows, a + [e]) == Apply(Run(rows, a), e)
  {
    RunConcat(rows, a, [e]);
  }

  /** The database's uniqueness constraint on `task_id`. */
  ghost predicate UniqueTasks(rows: Rows) {
    forall i, j :: i in rows && j in rows && rows[i].taskId == rows[j].taskId ==> i == j
  }

  /** The row of a task, if it has one. */
  ghost function RowOf(rows: Rows, taskId: int): (r: Option<int>)
    ensures r.Some? ==> r.value in rows && rows[r.value].taskId == taskId
    ensures r.None? <==> !HasRowFor(rows, taskId)
  {
    if HasRowFor(rows, taskId) then
      var id :| id in rows && rows[id].taskId == taskId; Some(id)
    else None
  }

  lemma ApplyKeepsTasks(rows: Rows, e: Timed)
    ensures UniqueTasks(rows) ==> UniqueTasks(Apply(rows, e))
    ensures forall id :: id in rows ==> id in Apply(rows, e) && Apply(rows, e)[id].taskId == rows[id].taskId
  {
    forall id | id in rows
      ensures Effect(id, rows[id], e).taskId == rows[id].taskId
    {
    }
  }

  /** No command moves or deletes a row, and no task gets a second one. */
  lemma {:induction false} RunKeepsTasks(rows: Rows, es: seq<Timed>)
    ensures UniqueTasks(rows) ==> UniqueTasks(Run(rows, es))
    ensures forall id :: id in rows ==> id in Run(rows, es) && Run(rows, es)[id].taskId == rows[id].taskId
    decreases |es|
  {
    if es != [] {
      ApplyKeepsTasks(rows, es[0]);
      RunKeepsTasks(Apply(rows, es[0]), es[1..]);
    }
  }

  /** The WHERE clause of the SELECT in `claim_next`; `pending` are the tasks whose status is PENDING. */
  predicate Candidate(it: Item, pending: set<int>, now: Time) {
    it.taskId in pending && it.availableAt <= now && it.Claimable(now)
  }

  /** ORDER BY priority DESC, id ASC. */
  predicate Before(rows: Rows, a: int, b: int)
    requires a in rows && b in rows
  {
    rows[a].priority > rows[b].priority || (rows[a].priority == rows[b].priority && a < b)
  }

  ghost predicate IsSelection(rows: Rows, pending: set<int>, now: Time, ids: seq<int>) {
    && |ids| <= CANDIDATE_LIMIT
    && (forall i :: 0 <= i < |ids| ==> ids[i] in rows && Candidate(rows[ids[i]], pending, now))
    && (forall i, j :: 0 <= i < j < |ids| ==> Before(rows, ids[i], ids[j]))
    && (forall id :: id in rows && Candidate(rows[id], pending, now) && id !in ids ==>
          |ids| == CANDIDATE_LIMIT && forall i :: 0 <= i < |ids| ==> Before(rows, ids[i], id))
  }

  /** A selection holds the best ten rows, by priority and then by id, of the pending tasks whose rows are available,
      have attempts left and are queued or carry a lease that ended before `now`. */
  lemma SelectionMeans(rows: Rows, pending: set<int>, now: Time, ids: seq<int>, id: int)
    requires IsSelection(rows, pending, now, ids) && id in rows
    ensures var it := rows[id];
            var eligible := && it.taskId in pending && it.availableAt <= now && it.attempts < it.maxAttempts
                            && (it.status == Queued || (it.expiresAt.Some? && it.expiresAt.value < now));
            && (id in ids ==> eligible)
            && (eligible && id !in ids ==>
                  && |ids| == 10
                  && forall i :: 0 <= i < 10 ==>
                       && ids[i] in rows && rows[ids[i]].priority >= it.priority
                       && (rows[ids[i]].priority == it.priority ==> ids[i] < id))
    ensures forall i, j :: 0 <= i < j < |ids| ==>
              && ids[i] in rows && ids[j] in rows && rows[ids[i]].priority >= rows[ids[j]].priority
              && (rows[ids[i]].priority == rows[ids[j]].priority ==> ids[i] < ids[j])
  {
    forall i, j | 0 <= i < j < |ids|
      ensures ids[i] in rows && ids[j] in rows && Before(rows, ids[i], ids[j])
    {
    }
  }

  /** What the sessions of other workers and the clock do while `claim_next` walks its candidates:
      `others(i)` commits just before the `i`-th claiming UPDATE, which runs at `clock(i)` with the
      newly drawn token `drawn(i)`. */
  datatype Interleaving = Interleaving(
    others: nat -> seq<Timed>,
    clock: nat -> Time,
    drawn: nat -> Token)

  /** The table an attempt for the `i`-th candidate meets, and the table after the first `n` attempts. */
  function Met(rows: Rows, ids: seq<int>, now: Time, leaseSeconds: int, env: Interleaving, i: nat): Rows
    requires i < |ids|
    decreases i, 1
  {
    Run(After(rows, ids, now, leaseSeconds, env, i), env.others(i))
  }

  function After(rows: Rows, ids: seq<int>, now: Time, leaseSeconds: int, env: Interleaving, n: nat): Rows
    requires n <= |ids|
    decreases n, 0
  {
    if n == 0 then rows
    else Apply(Met(rows, ids, now, leaseSeconds, env, n - 1), Attempt(ids, now, leaseSeconds, env, n - 1))
  }

  function Attempt(ids: seq<int>, now: Time, leaseSeconds: int, env: Interleaving, i: nat): Timed
    requires i < |ids|
  {
    Timed(env.clock(i), Claim(ids[i], env.drawn(i), now, leaseSeconds))
  }

  /** The `i`-th claiming UPDATE matches a row. */
  predicate Matches(rows: Rows, ids: seq<int>, now: Time, leaseSeconds: int, env: Interleaving, i: nat)
    requires i < |ids|
  {
    var met := Met(rows, ids, now, leaseSeconds, env, i);
    ids[i] in met && met[ids[i]].Claimable(now)
  }

  /** None of the first `n` claiming UPDATEs matches a row. */
  predicate NoneMatch(rows: Rows, ids: seq<int>, now: Time, leaseSeconds: int, env: Interleaving, n: nat)
    requires n <= |ids|
  {
    || n == 0
    || (NoneMatch(rows, ids, now, leaseSeconds, env, n - 1) && !Matches(rows, ids, now, leaseSeconds, env, n - 1))
  }

  /** The SELECT of `claim_next`. */
  method SelectCandidates(rows: Rows, pending: set<int>, now: Time) returns (ids: seq<int>)
    ensures IsSelection(rows, pending, now, ids)
  {
    ids := [];
    var rest := set id | id in rows && Candidate(rows[id], pending, now);
    while rest != {} && |ids| < CANDIDATE_LIMIT
      invariant |ids| <= CANDIDATE_LIMIT
      invariant forall i :: 0 <= i < |ids| ==> ids[i] in rows && Candidate(rows[ids[i]], pending, now)
      invariant forall i, j :: 0 <= i < j < |ids| ==> Before(rows, ids[i], ids[j])
      invariant forall id :: id in rest <==> id in rows && Candidate(rows[id], pending, now) && id !in ids
      invariant forall id, i :: id in rest && 0 <= i < |ids| ==> Before(rows, ids[i], id)
      decreases rest
    {
      var best := FirstOf(rows, rest);
      ids := ids + [best];
      rest := rest - {best};
    }
  }

  method FirstOf(rows: Rows, ids: set<int>) returns (best: int)
    requires ids != {} && forall id :: id in ids ==> id in rows
    ensures best in ids && forall id :: id in ids && id != best ==> Before(rows, best, id)
  {
    SomeMember(ids);
    best :| best in ids;
    var rest := ids - {best};
    while rest != {}
      invariant best in ids && rest <= ids
      invariant forall id :: id in ids && id !in rest && id != best ==> Before(rows, best, id)
      decreases rest
    {
      SomeMember(rest);
      var id :| id in rest;
      if Before(rows, id, best) {
        best := id;
      }
      rest := rest - {id};
    }
  }

  /** The last of the `tried` attempts is the first that matches a row, and that is what was claimed; without a match
      all candidates were tried. */
  predicate FirstMatch(rows: Rows, ids: seq<int>, now: Time, leaseSeconds: int, env: Interleaving, tried: nat,
                       claimed: Option<(int, Token)>)
    requires tried <= |ids|
  {
    if claimed.None? then tried == |ids| && NoneMatch(rows, ids, now, leaseSeconds, env, tried)
    else
      && tried > 0 && claimed.value == (ids[tried - 1], env.drawn(tried - 1))
      && NoneMatch(rows, ids, now, leaseSeconds, env, tried - 1)
      && Matches(rows, ids, now, leaseSeconds, env, tried - 1)
  }

  /** What is claimed is the candidate of the last attempt, whose row has attempts left when its turn comes and is
      queued or carries a lease that ended before the SELECT; no row met by an earlier attempt is so. With nothing
      claimed every candidate was tried, and none was. */
  lemma {:induction false} ClaimedIsFirst(rows: Rows, ids: seq<int>, now: Time, leaseSeconds: int, env: Interleaving,
                                          tried: nat, claimed: Option<(int, Token)>, i: nat)
    requires tried <= |ids| && FirstMatch(rows, ids, now, leaseSeconds, env, tried, claimed) && i < |ids|
    ensures claimed.None? ==> tried == |ids|
    ensures claimed.Some? ==> claimed.value == (ids[tried - 1], env.drawn(tried - 1))
    ensures var met := Met(rows, ids, now, leaseSeconds, env, i);
            i < tried ==>
              ((&& ids[i] in met && met[ids[i]].attempts < met[ids[i]].maxAttempts
                && (|| met[ids[i]].status == Queued
                    || (met[ids[i]].expiresAt.Some? && met[ids[i]].expiresAt.value < now)))
               <==> claimed.Some? && i == tried - 1)
  {
    if claimed.None? {
      NoneOfThem(rows, ids, now, leaseSeconds, env, tried, i);
    } else if i < tried - 1 {
      NoneOfThem(rows, ids, now, leaseSeconds, env, tried - 1, i);
    }
  }

  lemma {:induction false} NoneOfThem(rows: Rows, ids: seq<int>, now: Time, leaseSeconds: int, env: Interleaving,
                                      n: nat, i: nat)
    requires i < n <= |ids| && NoneMatch(rows, ids, now, leaseSeconds, env, n)
    ensures !Matches(rows, ids, now, leaseSeconds, env, i)
    decreases n
  {
    if i < n - 1 {
      NoneOfThem(rows, ids, now, leaseSeconds, env, n - 1, i);
    }
  }

  /** What the next attempt meets and leaves. */
  lemma NextAttempt(rows: Rows, ids: seq<int>, now: Time, leaseSeconds: int, env: Interleaving, i: nat, before: Rows)
    requires i < |ids| && before == After(rows, ids, now, leaseSeconds, env, i)
    ensures var met := Run(before, env.others(i));
            && After(rows, ids, now, leaseSeconds, env, i + 1)
               == Apply(met, Timed(env.clock(i), Claim(ids[i], env.drawn(i), now, leaseSeconds)))
            && (Matches(rows, ids, now, leaseSeconds, env, i) <==> ids[i] in met && met[ids[i]].Claimable(now))
  {
  }

  lemma WriteIsRequeue(met: Rows, i: int, seen: Status, readAt: Time, clock: Time)
    requires i in met && (seen == Queued || seen == Leased)
    ensures var it := met[i].(availableAt := readAt);
            met[i := if seen == Queued then it else it.(status := Queued, token := None, expiresAt := None)]
            == Apply(met, Timed(clock, Requeue(i, seen, readAt)))
  {
    var after := Apply(met, Timed(clock, Requeue(i, seen, readAt)));
    forall j | j in met && j != i
      ensures after[j] == met[j]
    {
    }
  }

  lemma WriteIsVerdict(met: Rows, i: int, token: Token, dead: bool, error: string, availableAt: Time, clock: Time)
    requires i in met
    ensures var it := met[i].(lastError := Some(Truncate(error)), token := None, expiresAt := None);
            met[i := if dead then it.(status := Dead) else it.(status := Queued, availableAt := availableAt)]
            == Apply(met, Timed(clock, FailWrite(i, token, dead, error, availableAt)))
  {
    var after := Apply(met, Timed(clock, FailWrite(i, token, dead, error, availableAt)));
    forall j | j in met && j != i
      ensures after[j] == met[j]
    {
    }
  }

  lemma NoWriteIsRequeue(met: Rows, i: int, seen: Status, readAt: Time, clock: Time)
    requires seen == Completed || seen == Dead
    ensures met == Apply(met, Timed(clock, Requeue(i, seen, readAt)))
  {
  }

  /** What a fail writes: the first 4000 characters of the error, and the row free for another try after the delay if a
      retry was asked for and the row that was read had attempts left, dead otherwise. */
  lemma FailLeaves(rows: Rows, seen: Item, id: int, token: Token, error: string, delay: int, retry: bool, now: Time,
                   clock: Time)
    requires id in rows
    ensures var it, after := rows[id], Apply(rows, Timed(clock, Verdict(seen, id, token, error, delay, retry, now)));
            var text := if |error| > 4000 then error[..4000] else error;
            var again := retry && seen.attempts < seen.maxAttempts;
            after == rows[id := Item(it.taskId, it.priority, if again then Queued else Dead, it.attempts,
                                     it.maxAttempts, it.timeoutSeconds,
                                     if again then now + delay as real else it.availableAt, None, None, Some(text))]
  {
    var after := Apply(rows, Timed(clock, Verdict(seen, id, token, error, delay, retry, now)));
    forall other | other in rows && other != id
      ensures after[other] == rows[other]
    {
    }
  }

  /** What a recovery frees: exactly the leased rows whose lease ended before `now` and that have attempts left, and
      from `now` on. */
  lemma RecoverLeaves(rows: Rows, now: Time, id: int)
    requires id in rows
    ensures var it, after := rows[id], Apply(rows, Timed(now, Recover))[id];
            var freed := Item(it.taskId, it.priority, Queued, it.attempts, it.maxAttempts, it.timeoutSeconds, now,
                              None, None, it.lastError);
            if && it.status == Leased && it.attempts < it.maxAttempts
               && it.expiresAt.Some? && it.expiresAt.value < now
            then after == freed else after == it
  {
  }

  /** What the write of an enqueue leaves of a row, by the status that its read saw: a leased row is queued again
      without its lease, a queued one only becomes available, one that was over is left alone. A new row is queued. */
  lemma EnqueueLeaves(rows: Rows, id: int, seen: Status, readAt: Time, clock: Time)
    requires id in rows
    ensures var it, after := rows[id], Apply(rows, Timed(clock, Requeue(id, seen, readAt)));
            after == if seen == Leased
                     then rows[id := Item(it.taskId, it.priority, Queued, it.attempts, it.maxAttempts,
                                          it.timeoutSeconds, readAt, None, None, it.lastError)]
                     else if seen == Queued then rows[id := it.(availableAt := readAt)]
                     else rows
    ensures forall taskId, newId, priority, maxAttempts, timeout ::
              newId !in rows && (forall i :: i in rows ==> rows[i].taskId != taskId) ==>
                Apply(rows, Timed(clock, Insert(taskId, newId, priority, maxAttempts, timeout)))
                == rows[newId := Item(taskId, priority, Queued, 0, maxAttempts, timeout, clock, None, None, None)]
  {
    var after := Apply(rows, Timed(clock, Requeue(id, seen, readAt)));
    forall other | other in rows && other != id
      ensures after[other] == rows[other]
    {
    }
    forall taskId, newId, priority, maxAttempts, timeout
      | newId !in rows && forall i :: i in rows ==> rows[i].taskId != taskId
      ensures Apply(rows, Timed(clock, Insert(taskId, newId, priority, maxAttempts, timeout)))
              == rows[newId := Item(taskId, priority, Queued, 0, maxAttempts, timeout, clock, None, None, None)]
    {
      var e := Timed(clock, Insert(taskId, newId, priority, maxAttempts, timeout));
      assert !HasRowFor(rows, taskId);
      assert (map i | i in rows :: Effect(i, rows[i], e)) == rows;
    }
  }

  /** The recovery while the rows in `todo` are not yet looked at. */
  ghost function RecoveredBut(rows: Rows, todo: set<int>, now: Time): Rows {
    map id | id in rows :: if id in todo then rows[id] else Effect(id, rows[id], Timed(now, Recover))
  }

  ghost function RecoveredIds(rows: Rows, todo: set<int>, now: Time): set<int> {
    set id | id in rows && id !in todo && rows[id].Recoverable(now)
  }

  lemma RecoverOne(rows: Rows, todo: set<int>, now: Time, id: int)
    requires id in todo && id in rows
    ensures var before, left := RecoveredBut(rows, todo, now), todo - {id};
            if rows[id].Recoverable(now)
            then && before[id := rows[id].Unleased(Queued).(availableAt := now)] == RecoveredBut(rows, left, now)
                 && RecoveredIds(rows, left, now) == RecoveredIds(rows, todo, now) + {id}
            else && before == RecoveredBut(rows, left, now)
                 && RecoveredIds(rows, left, now) == RecoveredIds(rows, todo, now)
  {
  }

  class TaskService {
    var rows: Rows

    ghost predicate Valid()
      reads this
    {
      UniqueTasks(rows)
    }

    constructor ()
      ensures Valid() && rows == map[]
    {
      rows := map[];
    }

    /** Reads at `now` and commits at `clock`, with the commands `others` of other sessions in between. `newId` is the
        next primary key. `None` means that another session inserted a row for the task first. */
    method EnqueueTask(taskId: int, newId: int, priority: int, maxAttempts: int, timeoutSeconds: int, now: Time,
                       others: seq<Timed>, clock: Time)
      returns (id: Option<int>)
      requires Valid() && newId !in Run(rows, others)
      modifies this
      ensures Valid()
      ensures var met, row := Run(old(rows), others), RowOf(old(rows), taskId);
              rows ==
              if row.None? then Apply(met, Timed(clock, Insert(taskId, newId, priority, maxAttempts, timeoutSeconds)))
              else Apply(met, Timed(clock, Requeue(row.value, old(rows)[row.value].status, now)))
      ensures id.None? <==> RowOf(old(rows), taskId).None? && HasRowFor(Run(old(rows), others), taskId)
      ensures id.Some? ==> id.value in rows && rows[id.value].taskId == taskId
    {
      RunKeepsTasks(rows, others);
      if i :| i in rows && rows[i].taskId == taskId {
        assert RowOf(rows, taskId) == Some(i);
        var seen := rows[i];
        rows := Run(rows, others);
        id := Some(i);
        if !seen.Terminal() {
          WriteIsRequeue(rows, i, seen.status, now, clock);
          var it := rows[i].(availableAt := now);
          if seen.status != Queued {
            it := it.(status := Queued, token := None, expiresAt := None);
          }
          rows := rows[i := it];
        } else {
          NoWriteIsRequeue(rows, i, seen.status, now, clock);
        }
      } else {
        rows := Run(rows, others);
        if j :| j in rows && rows[j].taskId == taskId {
          return None;
        }
        id := Some(newId);
        rows := rows[newId := Item(taskId, priority, Queued, 0, maxAttempts, timeoutSeconds, clock, None, None, None)];
      }
    }

    /** `claim_next`: a SELECT, then one compare-and-set per candidate that reuses the SELECT's `now`,
        with the commands of other sessions in between. It stops at the first candidate
        still claimable when its turn comes, and gives up only after the last. */
    method ClaimNext(pending: set<int>, now: Time, leaseSeconds: int, env: Interleaving)
      returns (claimed: Option<(int, Token)>, ghost ids: seq<int>, ghost tried: nat)
      requires Valid()
      modifies this
      ensures IsSelection(old(rows), pending, now, ids)
      ensures tried <= |ids| && rows == After(old(rows), ids, now, leaseSeconds, env, tried)
      ensures FirstMatch(old(rows), ids, now, leaseSeconds, env, tried, claimed)
    {
      var candidates := SelectCandidates(rows, pending, now);
      ids := candidates;
      var i := 0;
      while i < |candidates|
        invariant 0 <= i <= |candidates|
        invariant rows == After(old(rows), ids, now, leaseSeconds, env, i)
        invariant NoneMatch(old(rows), ids, now, leaseSeconds, env, i)
      {
        var claimedRow := TryCandidate(old(rows), candidates, i, now, leaseSeconds, env);
        i := i + 1;
        if claimedRow {
          return Some((candidates[i - 1], env.drawn(i - 1))), ids, i;
        }
      }
      return None, ids, i;
    }

    /** The commands of other sessions, and then the claiming UPDATE for the `i`-th candidate. */
    method TryCandidate(ghost start: Rows, ids: seq<int>, i: nat, now: Time, leaseSeconds: int, env: Interleaving)
      returns (ok: bool)
      requires i < |ids| && rows == After(start, ids, now, leaseSeconds, env, i)
      modifies this
      ensures rows == After(start, ids, now, leaseSeconds, env, i + 1)
      ensures ok <==> Matches(start, ids, now, leaseSeconds, env, i)
    {
      NextAttempt(start, ids, now, leaseSeconds, env, i, rows);
      rows := Run(rows, env.others(i));
      ok := TryClaim(ids[i], env.drawn(i), now, leaseSeconds, env.clock(i));
    }

    /** One claiming UPDATE; `clock` is when it commits, `selectedAt` the stale `now` it compares with. */
    method TryClaim(id: int, token: Token, selectedAt: Time, leaseSeconds: int, clock: Time) returns (ok: bool)
      modifies this
      ensures rows == Apply(old(rows), Timed(clock, Claim(id, token, selectedAt, leaseSeconds)))
      ensures ok == (id in old(rows) && old(rows)[id].Claimable(selectedAt))
      ensures ok <==>
                && id in old(rows)
                && var it := old(rows)[id];
                   && it.attempts < it.maxAttempts
                   && (it.status == Queued || (it.expiresAt.Some? && it.expiresAt.value < selectedAt))
      ensures ok ==> var it := old(rows)[id];
                     var lease := if leaseSeconds >= it.timeoutSeconds then leaseSeconds else it.timeoutSeconds;
                     rows == old(rows)[id := Item(it.taskId, it.priority, Leased, it.attempts + 1, it.maxAttempts,
                                                  it.timeoutSeconds, it.availableAt, Some(token),
                                                  Some(selectedAt + lease as real), it.lastError)]
      ensures !ok ==> rows == old(rows)
    {
      ok := id in rows && rows[id].Claimable(selectedAt);
      if ok {
        var lease := Max(leaseSeconds, rows[id].timeoutSeconds) as real;
        rows := rows[id := rows[id].(status := Leased, attempts := rows[id].attempts + 1,
                                     token := Some(token), expiresAt := Some(selectedAt + lease))];
      }
    }

    method RenewLease(id: int, token: Token, leaseSeconds: int, now: Time) returns (ok: bool)
      requires Valid()
      modifies this
      ensures Valid()
      ensures rows == Apply(old(rows), Timed(now, Renew(id, token, leaseSeconds)))
      ensures ok <==> id in old(rows) && old(rows)[id].status == Leased && old(rows)[id].token == Some(token)
      ensures rows == if ok then old(rows)[id := old(rows)[id].(expiresAt := Some(now + leaseSeconds as real))]
                      else old(rows)
    {
      ok := id in rows && rows[id].status == Leased && rows[id].token == Some(token);
      if ok {
        rows := rows[id := rows[id].(expiresAt := Some(now + leaseSeconds as real))];
      }
    }

    method CompleteItem(id: int, token: Token, now: Time) returns (ok: bool)
      requires Valid()
      modifies this
      ensures Valid()
      ensures rows == Apply(old(rows), Timed(now, Complete(id, token)))
      ensures ok <==> id in old(rows) && old(rows)[id].status == Leased && old(rows)[id].token == Some(token)
      ensures rows == if ok then old(rows)[id := old(rows)[id].(status := Completed, token := None, expiresAt := None)]
                      else old(rows)
    {
      ok := id in rows && rows[id].status == Leased && rows[id].token == Some(token);
      if ok {
        rows := rows[id := rows[id].(status := Completed, token := None, expiresAt := None)];
      }
    }

    /** Reads at `now` and commits at `clock`, with the commands `others` of other sessions in between. The result is
        the status written, or `None` when the token did not own the row as it was read; then nothing is written. */
    method FailItem(id: int, token: Token, error: string, retryDelaySeconds: int, retry: bool, now: Time,
                    others: seq<Timed>, clock: Time)
      returns (outcome: Option<Status>)
      requires Valid()
      modifies this
      ensures Valid()
      ensures outcome.Some? <==> id in old(rows) && old(rows)[id].status == Leased && old(rows)[id].token == Some(token)
      ensures outcome.Some? ==> var it := old(rows)[id];
                                outcome.value == if retry && it.attempts < it.maxAttempts then Queued else Dead
      ensures var met := Run(old(rows), others);
              rows == if outcome.None? then met
                      else Apply(met, Timed(clock, Verdict(old(rows)[id], id, token, error, retryDelaySeconds, retry,
                                                           now)))
      ensures outcome.Some? ==> id in rows && outcome.value == rows[id].status
    {
      RunKeepsTasks(rows, others);
      if id !in rows || rows[id].status != Leased || rows[id].token != Some(token) {
        rows := Run(rows, others);
        return None;
      }
      var dead := !retry || rows[id].attempts >= rows[id].maxAttempts;
      rows := Run(rows, others);
      WriteVerdict(id, token, dead, error, now + retryDelaySeconds as real, clock);
      outcome := Some(if dead then Dead else Queued);
    }

    /** The commit of `fail`, by primary key alone. */
    method WriteVerdict(id: int, ghost token: Token, dead: bool, error: string, availableAt: Time, ghost clock: Time)
      requires Valid() && id in rows
      modifies this
      ensures Valid()
      ensures rows == Apply(old(rows), Timed(clock, FailWrite(id, token, dead, error, availableAt)))
      ensures id in rows && rows[id].status == if dead then Dead else Queued
    {
      WriteIsVerdict(rows, id, token, dead, error, availableAt, clock);
      ApplyKeepsTasks(rows, Timed(clock, FailWrite(id, token, dead, error, availableAt)));
      var it := rows[id].(lastError := Some(Truncate(error)), token := None, expiresAt := None);
      rows := rows[id := if dead then it.(status := Dead) else it.(status := Queued, availableAt := availableAt)];
    }

    /** The UPDATE on one row. */
    method RecoverIfExpired(ghost start: Rows, ghost todo: set<int>, id: int, now: Time) returns (recovered: bool)
      requires id in todo && id in start && rows == RecoveredBut(start, todo, now)
      modifies this
      ensures rows == RecoveredBut(start, todo - {id}, now)
      ensures id !in RecoveredIds(start, todo, now)
      ensures RecoveredIds(start, todo - {id}, now) == RecoveredIds(start, todo, now) + if recovered then {id} else {}
    {
      RecoverOne(start, todo, now, id);
      recovered := rows[id].status == Leased && rows[id].ExpiredAt(now) && rows[id].attempts < rows[id].maxAttempts;
      if recovered {
        rows := rows[id := rows[id].(status := Queued, token := None, expiresAt := None, availableAt := now)];
      }
    }

    method RecoverExpired(now: Time) returns (count: nat)
      requires Valid()
      modifies this
      ensures Valid()
      ensures rows == Apply(old(rows), Timed(now, Recover))
      ensures count == |set id | id in old(rows) && old(rows)[id].Recoverable(now)|
    {
      var todo := rows.Keys;
      count := 0;
      assert rows == RecoveredBut(rows, todo, now) && RecoveredIds(rows, todo, now) == {};
      while todo != {}
        invariant todo <= old(rows).Keys && rows == RecoveredBut(old(rows), todo, now)
        invariant count == |RecoveredIds(old(rows), todo, now)|
        decreases todo
      {
        SomeMember(todo);
        var id :| id in todo;
        var recovered := RecoverIfExpired(old(rows), todo, id, now);
        if recovered {
          count := count + 1;
        }
        todo := todo - {id};
      }
      assert rows == Apply(old(rows), Timed(now, Recover));
      assert RecoveredIds(old(rows), {}, now) == set id | id in old(rows) && old(rows)[id].Recoverable(now);
      ApplyKeepsTasks(old(rows), Timed(now, Recover));
    }
  }

  /** The commands `claim_next` lets happen up to its `n`-th attempt. */
  function Commands(ids: seq<int>, now: Time, leaseSeconds: int, env: Interleaving, n: nat): seq<Timed>
    requires n <= |ids|
  {
    if n == 0 then []
    else
      Commands(ids, now, leaseSeconds, env, n - 1) + env.others(n - 1)
      + [Attempt(ids, now, leaseSeconds, env, n - 1)]
  }

  /** A `claim_next` is a run of the table, so that every theorem about runs covers it. */
  lemma {:induction false} ClaimNextIsARun(
    rows: Rows, ids: seq<int>, now: Time, leaseSeconds: int, env: Interleaving, n: nat)
    requires n <= |ids|
    ensures After(rows, ids, now, leaseSeconds, env, n) == Run(rows, Commands(ids, now, leaseSeconds, env, n))
  {
    if n > 0 {
      var before := Commands(ids, now, leaseSeconds, env, n - 1);
      ClaimNextIsARun(rows, ids, now, leaseSeconds, env, n - 1);
      RunConcat(rows, before, env.others(n - 1));
      RunSnoc(rows, before + env.others(n - 1), Attempt(ids, now, leaseSeconds, env, n - 1));
    }
  }
}
