/** Who may hold the execution lease of one task, over every run of any number of executors. */
module LeaseRuns {
  import opened Wrappers
  import opened TaskLease

  // `History` is the row together with what was promised to whom: `granted` maps every token ever handed out to the
  // latest expiry given to it, `guests` are the executors that started without a claim and so without a token, numbered
  // apart from the tokens, `released` holds the tokens and guests whose executor is done, and `dropped` the tokens that
  // something else took off the row before their promise was over.
  //
  // A run consists of claims, extensions, starts without a claim, status writes, cancellations, resumptions, sweeps,
  // restarts and resets. A sweep, cancellation or resumption that commits what it decided on an older row is a status
  // write by nobody's executor; one that had read no lease clears none. So is a terminal write after which its executor
  // goes on, such as that of a rejected approval node while other nodes of its layer run. A claim whose reset commits
  // separately is a reset and a claim.

  datatype History = History(task: Task, granted: map<Token, Time>, guests: set<Token>, released: set<Token>,
                             dropped: set<Token>)

  /** The token that command `e` grants or extends a lease to, if it does. */
  function Grantee(t: Task, e: Timed): Option<Token> {
    match e.cmd
    case Claim(token) => if Claimable(t, e.now) then Some(token) else None
    case Extend(token) => if Extends(t, token) then Some(token) else None
    case _ => None
  }

  predicate Ends(c: Command) {
    c.SetStatus? && (c.status == Completed || c.status == Failed)
  }

  /** The row carries a lease that has not expired. */
  predicate Promised(t: Task, now: Time) {
    t.token.Some? && t.expiresAt.Some? && now <= t.expiresAt.value
  }

  /** The command takes an unexpired lease off the row, and it is not its executor that does so. */
  predicate Drops(h: History, e: Timed) {
    && Promised(h.task, e.now)
    && (|| (e.cmd.Claim? && Claimable(h.task, e.now))
        || (Ends(e.cmd) && e.cmd.writer != h.task.token)
        || e.cmd.Reset?)
  }

  function Step(h: History, e: Timed): History {
    var grantee := Grantee(h.task, e);
    History(
      Effect(h.task, e),
      if grantee.Some? then h.granted[grantee.value := e.now + LEASE_DURATION] else h.granted,
      if e.cmd.Join? then h.guests + {e.cmd.executor} else h.guests,
      if Ends(e.cmd) && e.cmd.writer.Some? then h.released + {e.cmd.writer.value}
      else if e.cmd.Leave? then h.released + {e.cmd.executor}
      else h.released,
      if Drops(h, e) then h.dropped + {h.task.token.value} else h.dropped)
  }

  function Run(h: History, es: seq<Timed>): History
    decreases |es|
  {
    if es == [] then h else Run(Step(h, es[0]), es[1..])
  }

  const NewTask := History(Task(Pending, None, None, None), map[], {}, {}, {})

  function LastTime(clock: Time, es: seq<Timed>): Time {
    if es == [] then clock else es[|es| - 1].now
  }

  /** The clock never runs back, no claim draws a token and no start without a claim a number that was handed out
      before, and nobody writes as an executor that never started. */
  predicate Proper(h: History, clock: Time, es: seq<Timed>)
    decreases |es|
  {
    es != [] ==>
      && clock <= es[0].now
      && Allowed(h, es[0])
      && Proper(Step(h, es[0]), es[0].now, es[1..])
  }

  predicate Allowed(h: History, e: Timed) {
    && (e.cmd.Claim? ==> e.cmd.token !in h.granted && e.cmd.token !in h.guests)
    && (e.cmd.Join? ==> e.cmd.executor !in h.granted && e.cmd.executor !in h.guests)
    && (e.cmd.Leave? ==> e.cmd.executor in h.guests)
    && (e.cmd.SetStatus? && e.cmd.writer.Some? ==> e.cmd.writer.value in h.granted || e.cmd.writer.value in h.guests)
  }

  /** Token `t` may still be in use by an executor that was never told to stop. */
  predicate Live(h: History, t: Token, now: Time) {
    t in h.granted && t !in h.released && now <= h.granted[t]
  }

  /** Executor `g` started without a claim and has not ended. */
  predicate Around(h: History, g: Token) {
    g in h.guests && g !in h.released
  }

  /** Some executor of the task is still at work, as far as it knows. */
  ghost predicate SomeoneLive(h: History, now: Time) {
    (exists t: Token :: Live(h, t, now)) || exists g: Token :: Around(h, g)
  }

  // ---- Where every promise stands, in every run

  ghost predicate Inv(h: History, clock: Time) {
    && (h.task.token.Some? <==> h.task.expiresAt.Some?)
    && (h.task.token.Some? ==> RowToken(h, h.task.token.value, h.task.expiresAt.value))
    && h.released <= h.granted.Keys + h.guests && h.dropped <= h.granted.Keys && h.granted.Keys !! h.guests
    && forall t :: t in h.granted ==> Accounted(h, t, clock)
  }

  ghost predicate RowToken(h: History, t: Token, expiry: Time) {
    t in h.granted && h.granted[t] == expiry && t !in h.released && t !in h.dropped
  }

  ghost predicate Accounted(h: History, t: Token, clock: Time)
    requires t in h.granted
  {
    h.task.token == Some(t) || t in h.released || t in h.dropped || h.granted[t] < clock
  }

  lemma {:induction false} ReleasedIsOff(h: History, clock: Time, es: seq<Timed>)
    requires Inv(h, clock) && Proper(h, clock, es)
    ensures h.released <= Run(h, es).released && h.dropped <= Run(h, es).dropped && h.guests <= Run(h, es).guests
    decreases |es|
  {
    if es != [] {
      StepKeepsInv(h, clock, es[0]);
      ReleasedIsOff(Step(h, es[0]), es[0].now, es[1..]);
    }
  }

  /** A token on the row is that of an executor that has not ended the task: its own terminal write clears it. */
  lemma StepKeepsRowToken(h: History, clock: Time, e: Timed)
    requires Inv(h, clock) && clock <= e.now && Allowed(h, e)
    ensures var n := Step(h, e);
            && (n.task.token.Some? <==> n.task.expiresAt.Some?)
            && (n.task.token.Some? ==> RowToken(n, n.task.token.value, n.task.expiresAt.value))
  {
  }

  lemma StepKeepsInv(h: History, clock: Time, e: Timed)
    requires Inv(h, clock) && clock <= e.now && Allowed(h, e)
    ensures Inv(Step(h, e), e.now)
  {
    var n := Step(h, e);
    StepKeepsRowToken(h, clock, e);
    forall t | t in n.granted
      ensures Accounted(n, t, e.now)
    {
      if t in h.granted {
        assert Accounted(h, t, clock);
      }
    }
  }

  lemma {:induction false} RunKeepsInv(h: History, clock: Time, es: seq<Timed>)
    requires Inv(h, clock) && Proper(h, clock, es)
    ensures Inv(Run(h, es), LastTime(clock, es))
    decreases |es|
  {
    if es != [] {
      StepKeepsInv(h, clock, es[0]);
      RunKeepsInv(Step(h, es[0]), es[0].now, es[1..]);
    }
  }

  /** A token that is no longer on the row never comes back. */
  lemma {:induction false} OldTokenStaysOff(h: History, clock: Time, es: seq<Timed>, t: Token)
    requires Proper(h, clock, es) && t in h.granted && h.task.token != Some(t)
    ensures t in Run(h, es).granted && Run(h, es).task.token != Some(t)
    ensures Run(h, es).granted[t] == h.granted[t]
    decreases |es|
  {
    if es != [] {
      OldTokenStaysOff(Step(h, es[0]), es[0].now, es[1..], t);
    }
  }

  /** After a claim, whatever happens, an extension with an earlier token fails and changes nothing. */
  lemma EarlierTokensAreRefused(before: seq<Timed>, claim: Timed, after: seq<Timed>, earlier: Token, extend: Timed)
    requires claim.cmd.Claim? && Claimable(Run(NewTask, before).task, claim.now)
    requires claim.cmd.token !in Run(NewTask, before).granted
    requires Proper(Step(Run(NewTask, before), claim), claim.now, after)
    requires earlier in Run(NewTask, before).granted && extend.cmd == Extend(earlier)
    ensures var late := Run(Step(Run(NewTask, before), claim), after);
            !Extends(late.task, earlier) && Effect(late.task, extend) == late.task
  {
    OldTokenStaysOff(Step(Run(NewTask, before), claim), claim.now, after, earlier);
  }

  // ---- When a claim creates a second live executor

  function At(es: seq<Timed>, i: nat): History
    requires i <= |es|
  {
    Run(NewTask, es[..i])
  }

  /** Command `i` of the run took the lease `t` off the row, its promise is not over at `now`, and its executor has not
      ended the task itself. */
  ghost predicate Abandoned(es: seq<Timed>, i: nat, t: Token, now: Time)
    requires i < |es|
  {
    && Drops(At(es, i), es[i]) && At(es, i).task.token == Some(t)
    && now <= At(es, i).task.expiresAt.value && t !in Run(NewTask, es).released
  }

  lemma {:induction false} RunSplits(h: History, a: seq<Timed>, b: seq<Timed>)
    ensures Run(h, a + b) == Run(Run(h, a), b)
    decreases |a|
  {
    if a == [] {
      assert a + b == b;
    } else {
      RunSplits(Step(h, a[0]), a[1..], b);
      assert (a + b)[1..] == a[1..] + b;
    }
  }

  lemma LastTimeOfRest(clock: Time, a: seq<Timed>)
    requires a != []
    ensures LastTime(clock, a) == LastTime(a[0].now, a[1..])
  {
  }

  /** A proper run unfolds at its first command. */
  lemma ProperFirst(h: History, clock: Time, e: Timed, rest: seq<Timed>, next: History)
    requires next == Step(h, e)
    ensures Proper(h, clock, [e] + rest) <==> clock <= e.now && Allowed(h, e) && Proper(next, e.now, rest)
    ensures Run(h, [e] + rest) == Run(next, rest)
  {
    assert ([e] + rest)[1..] == rest;
  }

  lemma {:induction false} ProperSplits(h: History, clock: Time, a: seq<Timed>, b: seq<Timed>)
    requires Proper(h, clock, a + b)
    ensures Proper(h, clock, a) && Proper(Run(h, a), LastTime(clock, a), b)
    decreases |a|
  {
    if a == [] {
      assert a + b == b;
    } else {
      var e, rest, next := a[0], a[1..], Step(h, a[0]);
      assert a + b == [e] + (rest + b) && a == [e] + rest;
      ProperFirst(h, clock, e, rest + b, next);
      ProperFirst(h, clock, e, rest, next);
      LastTimeOfRest(clock, a);
      ProperSplits(next, e.now, rest, b);
    }
  }

  lemma MiddleOf(front: seq<Timed>, e: Timed, rest: seq<Timed>, h: History)
    requires Proper(NewTask, 0.0, front + ([e] + rest)) && h == Run(NewTask, front)
    ensures Inv(h, LastTime(0.0, front)) && LastTime(0.0, front) <= e.now && Allowed(h, e)
    ensures Proper(Step(h, e), e.now, rest) && Run(Step(h, e), rest) == Run(NewTask, front + ([e] + rest))
  {
    ProperSplits(NewTask, 0.0, front, [e] + rest);
    RunKeepsInv(NewTask, 0.0, front);
    RunSplits(NewTask, front, [e] + rest);
    ProperFirst(h, LastTime(0.0, front), e, rest, Step(h, e));
  }

  /** The state before command `i` is reached by a proper run, and the rest is a proper run from there. */
  lemma Middle(es: seq<Timed>, i: nat)
    requires Proper(NewTask, 0.0, es) && i < |es|
    ensures Inv(At(es, i), LastTime(0.0, es[..i])) && LastTime(0.0, es[..i]) <= es[i].now && Allowed(At(es, i), es[i])
    ensures Proper(Step(At(es, i), es[i]), es[i].now, es[i + 1..])
    ensures Run(Step(At(es, i), es[i]), es[i + 1..]) == Run(NewTask, es)
  {
    assert es == es[..i] + ([es[i]] + es[i + 1..]);
    MiddleOf(es[..i], es[i], es[i + 1..], At(es, i));
  }

  /** A lease that was taken off the row keeps the promise it had then. */
  lemma DroppedKeepsPromise(es: seq<Timed>, i: nat, t: Token)
    requires Proper(NewTask, 0.0, es) && i < |es|
    requires Drops(At(es, i), es[i]) && At(es, i).task.token == Some(t)
    ensures var end := Run(NewTask, es);
            && t in end.granted && end.granted[t] == At(es, i).task.expiresAt.value
            && t in end.dropped && end.task.token != Some(t)
  {
    Middle(es, i);
    var h := At(es, i);
    assert RowToken(h, t, h.task.expiresAt.value);
    StepKeepsInv(h, LastTime(0.0, es[..i]), es[i]);
    OldTokenStaysOff(Step(h, es[i]), es[i].now, es[i + 1..], t);
    ReleasedIsOff(Step(h, es[i]), es[i].now, es[i + 1..]);
  }

  lemma {:induction false} WhereDropped(es: seq<Timed>, t: Token) returns (i: nat)
    requires Proper(NewTask, 0.0, es) && t in Run(NewTask, es).dropped
    ensures i < |es| && Drops(At(es, i), es[i]) && At(es, i).task.token == Some(t)
    decreases |es|
  {
    var n := |es| - 1;
    assert es == es[..n] + [es[n]];
    RunSplits(NewTask, es[..n], [es[n]]);
    ProperSplits(NewTask, 0.0, es[..n], [es[n]]);
    assert Run(At(es, n), [es[n]]) == Step(At(es, n), es[n]);
    if t in At(es, n).dropped {
      i := WhereDropped(es[..n], t);
      assert es[..n][..i] == es[..i];
    } else {
      i := n;
    }
  }

  lemma LiveWasDropped(before: seq<Timed>, t: Token, now: Time) returns (i: nat)
    requires Proper(NewTask, 0.0, before) && LastTime(0.0, before) <= now
    requires Live(Run(NewTask, before), t, now) && !Promised(Run(NewTask, before).task, now)
    ensures i < |before| && Abandoned(before, i, t, now)
  {
    RunKeepsInv(NewTask, 0.0, before);
    assert Accounted(Run(NewTask, before), t, LastTime(0.0, before));
    i := WhereDropped(before, t);
    DroppedKeepsPromise(before, i, t);
  }

  /** Command `i` of the run is the start of executor `g` without a claim, and it has not ended. */
  predicate Joined(es: seq<Timed>, i: nat, g: Token)
    requires i < |es|
  {
    es[i].cmd == Join(g) && g !in Run(NewTask, es).released
  }

  lemma {:induction false} WhereJoined(es: seq<Timed>, g: Token) returns (i: nat)
    requires Proper(NewTask, 0.0, es) && g in Run(NewTask, es).guests
    ensures i < |es| && es[i].cmd == Join(g)
    decreases |es|
  {
    var n := |es| - 1;
    assert es == es[..n] + [es[n]];
    RunSplits(NewTask, es[..n], [es[n]]);
    ProperSplits(NewTask, 0.0, es[..n], [es[n]]);
    assert Run(At(es, n), [es[n]]) == Step(At(es, n), es[n]);
    if g in At(es, n).guests {
      i := WhereJoined(es[..n], g);
    } else {
      i := n;
    }
  }

  lemma JoinedIsAround(es: seq<Timed>, i: nat, g: Token)
    requires Proper(NewTask, 0.0, es) && i < |es| && Joined(es, i, g)
    ensures Around(Run(NewTask, es), g)
  {
    Middle(es, i);
    StepKeepsInv(At(es, i), LastTime(0.0, es[..i]), es[i]);
    ReleasedIsOff(Step(At(es, i), es[i]), es[i].now, es[i + 1..]);
  }

  /** Somebody is live exactly because of an unexpired lease on the row, one that was dropped, or a start without a
      claim. */
  lemma LiveMeans(before: seq<Timed>, now: Time)
    requires Proper(NewTask, 0.0, before) && LastTime(0.0, before) <= now
    ensures (exists t: Token :: Live(Run(NewTask, before), t, now))
            <==> (|| Promised(Run(NewTask, before).task, now)
                  || exists i: nat, t: Token :: i < |before| && Abandoned(before, i, t, now))
    ensures (exists g: Token :: Around(Run(NewTask, before), g))
            <==> exists i: nat, g: Token :: i < |before| && Joined(before, i, g)
  {
    LiveTokens(before, now);
    if g: Token :| Around(Run(NewTask, before), g) {
      var i := WhereJoined(before, g);
      assert Joined(before, i, g);
    }
    if i: nat, g: Token :| i < |before| && Joined(before, i, g) {
      JoinedIsAround(before, i, g);
    }
  }

  /** For every run: when a claim succeeds, an earlier executor is still live if and only if the row carries an
      unexpired lease, or such a lease was taken off the row by a claim, a reset or somebody else's terminal write and
      its promise is not over yet, or an executor started without a claim and has not ended. */
  lemma ClaimSplitsIff(before: seq<Timed>, claim: Timed)
    requires Proper(NewTask, 0.0, before) && LastTime(0.0, before) <= claim.now
    requires claim.cmd.Claim? && Claimable(Run(NewTask, before).task, claim.now)
    ensures SomeoneLive(Run(NewTask, before), claim.now)
            <==> (|| Promised(Run(NewTask, before).task, claim.now)
                  || (exists i: nat, t: Token :: i < |before| && Abandoned(before, i, t, claim.now))
                  || exists i: nat, g: Token :: i < |before| && Joined(before, i, g))
  {
    LiveMeans(before, claim.now);
  }

  lemma LiveTokens(before: seq<Timed>, now: Time)
    requires Proper(NewTask, 0.0, before) && LastTime(0.0, before) <= now
    ensures (exists t: Token :: Live(Run(NewTask, before), t, now))
            <==> (|| Promised(Run(NewTask, before).task, now)
                  || exists i: nat, t: Token :: i < |before| && Abandoned(before, i, t, now))
  {
    var h := Run(NewTask, before);
    RunKeepsInv(NewTask, 0.0, before);
    if Promised(h.task, now) {
      assert Live(h, h.task.token.value, now);
    } else if t: Token :| Live(h, t, now) {
      var i := LiveWasDropped(before, t, now);
    }
    if i: nat, t: Token :| i < |before| && Abandoned(before, i, t, now) {
      DroppedKeepsPromise(before, i, t);
      assert Live(h, t, now);
    }
  }

  // ---- An executor that renews in time

  /** When the executor with token `t` last claimed or extended its lease, if it did so at `touch` before. */
  function LastTouch(touch: Time, es: seq<Timed>, t: Token): Time
    decreases |es|
  {
    if es == [] then touch else LastTouch(if es[0].cmd == Extend(t) then es[0].now else touch, es[1..], t)
  }

  /** No command commits more than half an hour after the executor's latest touch, and the clock never runs back. */
  predicate OnTime(touch: Time, clock: Time, es: seq<Timed>, t: Token)
    decreases |es|
  {
    es != [] ==>
      && clock <= es[0].now <= touch + 1800.0
      && OnTime(if es[0].cmd == Extend(t) then es[0].now else touch, es[0].now, es[1..], t)
  }

  /** What happens while the executor works: its own extensions and status writes, sweeps, restarts, claims and
      extensions by others, and executors that start without a claim. */
  predicate Working(c: Command, t: Token) {
    match c
    case Claim(token) => token != t
    case Extend(_) => true
    case SetStatus(status, writer) => writer == Some(t) && (status == Running || status == WaitingApproval)
    case Sweep => true
    case Restart => true
    case Join(_) => true
    case Leave(_) => true
    case _ => false
  }

  /** The status the executor last wrote. */
  function StatusAfter(status: TaskStatus, es: seq<Timed>): TaskStatus
    decreases |es|
  {
    if es == [] then status else StatusAfter(if es[0].cmd.SetStatus? then es[0].cmd.status else status, es[1..])
  }

  lemma WorkingStep(h: History, e: Timed, t: Token, touch: Time)
    requires h.task.token == Some(t) && h.task.expiresAt == Some(touch + 1800.0)
    requires h.task.status == Running || h.task.status == WaitingApproval
    requires Working(e.cmd, t) && e.now <= touch + 1800.0
    ensures var n := Step(h, e).task;
            && n.token == Some(t) && n.result == h.task.result
            && n.status == (if e.cmd.SetStatus? then e.cmd.status else h.task.status)
            && n.expiresAt == Some((if e.cmd == Extend(t) then e.now else touch) + 1800.0)
  {
  }

  /** While the executor claims and extends at most half an hour apart, the task stays with it, running or waiting for
      approval as it last wrote, and the lease ends exactly half an hour after its latest touch. */
  lemma {:induction false} ActiveExecutorKeepsLease(h: History, es: seq<Timed>, t: Token, touch: Time, clock: Time)
    requires h.task.token == Some(t) && h.task.expiresAt == Some(touch + 1800.0)
    requires h.task.status == Running || h.task.status == WaitingApproval
    requires OnTime(touch, clock, es, t) && forall e :: e in es ==> Working(e.cmd, t)
    ensures var end := Run(h, es).task;
            && end.token == Some(t) && end.result == h.task.result && end.status == StatusAfter(h.task.status, es)
            && (end.status == Running || end.status == WaitingApproval)
            && end.expiresAt == Some(LastTouch(touch, es, t) + 1800.0)
    decreases |es|
  {
    if es != [] {
      var late := if es[0].cmd == Extend(t) then es[0].now else touch;
      assert Working(es[0].cmd, t);
      WorkingStep(h, es[0], t, touch);
      ActiveExecutorKeepsLease(Step(h, es[0]), es[1..], t, late, es[0].now);
    }
  }

  lemma LeaseEnds(end: History, t: Token, u: Token, expiry: Time, now: Time)
    requires end.task.token == Some(t) && end.task.expiresAt == Some(expiry) && t != u
    requires end.task.status == Running || end.task.status == WaitingApproval
    ensures Step(end, Timed(now, Sweep)).task.status == Failed <==> expiry < now
    ensures Step(end, Timed(now, Claim(u))).task.token == Some(u) <==> end.task.status == Running && expiry < now
    ensures Step(end, Timed(now, Extend(t))).task == end.task.(expiresAt := Some(now + 1800.0))
    ensures Step(end, Timed(now, Extend(u))).task == end.task
  {
  }

  /** From its claim on, an executor that renews in time holds the task, and it loses it exactly when more than half an
      hour passes: then a sweep fails the task, and another executor's claim takes it if it is running. Its own
      extension always succeeds, with either status; one with any other token changes nothing. */
  lemma ExecutorLosesLeaseIff(h: History, t: Token, u: Token, start: Time, es: seq<Timed>, now: Time)
    requires || h.task.status == Pending
             || (h.task.status == Running && h.task.expiresAt.Some? && h.task.expiresAt.value < start)
    requires OnTime(start, start, es, t) && t != u && forall e :: e in es ==> Working(e.cmd, t)
    ensures var end := Run(Step(h, Timed(start, Claim(t))), es);
            var last, status := LastTouch(start, es, t), StatusAfter(Running, es);
            && end.task == Task(status, Some(t), Some(last + 1800.0), h.task.result)
            && (Step(end, Timed(now, Sweep)).task.status == Failed <==> last + 1800.0 < now)
            && (Step(end, Timed(now, Claim(u))).task.token == Some(u) <==> status == Running && last + 1800.0 < now)
            && Step(end, Timed(now, Extend(t))).task == end.task.(expiresAt := Some(now + 1800.0))
            && Step(end, Timed(now, Extend(u))).task == end.task
  {
    var claimed := Step(h, Timed(start, Claim(t)));
    assert claimed.task == Task(Running, Some(t), Some(start + 1800.0), h.task.result);
    ActiveExecutorKeepsLease(claimed, es, t, start, start);
    LeaseEnds(Run(claimed, es), t, u, LastTouch(start, es, t) + 1800.0, now);
  }

  // ---- Where the protocol is safe

  /** The command makes the task pending, or ends it for somebody else's executor. */
  predicate Interferes(t: Task, c: Command) {
    || (c.Resume? && t.Resumable())
    || ((c.SetStatus? || c.WriteStatus?) && c.status == Pending)
    || (Ends(c) && c.writer != t.token)
    || c.Reset?
  }

  /** What the endpoints and sweeps would have to check when they commit: nothing of this meets an unexpired lease. */
  predicate Guarded(h: History, es: seq<Timed>)
    decreases |es|
  {
    es != [] ==>
      && (Interferes(h.task, es[0].cmd) ==> !Promised(h.task, es[0].now))
      && Guarded(Step(h, es[0]), es[1..])
  }

  predicate Undisturbed(h: History, clock: Time) {
    h.dropped == {} && (h.task.status == Pending && h.task.expiresAt.Some? ==> h.task.expiresAt.value < clock)
  }

  lemma {:induction false} GuardedStaysUndisturbed(h: History, clock: Time, es: seq<Timed>)
    requires Inv(h, clock) && Undisturbed(h, clock) && Proper(h, clock, es) && Guarded(h, es)
    ensures Undisturbed(Run(h, es), LastTime(clock, es))
    decreases |es|
  {
    if es != [] {
      StepKeepsInv(h, clock, es[0]);
      GuardedStaysUndisturbed(Step(h, es[0]), es[0].now, es[1..]);
    }
  }

  predicate NobodyJoins(es: seq<Timed>) {
    forall i :: 0 <= i < |es| ==> !es[i].cmd.Join?
  }

  /** No split brain: in a run whose endpoints check that, no earlier token is live when a claim succeeds. Each was
      released by its own executor, or its latest lease expired before the claim. If in addition no executor starts
      without a claim, nobody is live. */
  lemma NoSplitBrain(before: seq<Timed>, claim: Timed, earlier: Token)
    requires Proper(NewTask, 0.0, before) && Guarded(NewTask, before) && LastTime(0.0, before) <= claim.now
    requires claim.cmd.Claim? && Claimable(Run(NewTask, before).task, claim.now)
    ensures !Live(Run(NewTask, before), earlier, claim.now)
    ensures NobodyJoins(before) ==> !SomeoneLive(Run(NewTask, before), claim.now)
  {
    forall t: Token
      ensures !Live(Run(NewTask, before), t, claim.now)
    {
      EarlierIsOver(before, claim, t);
    }
    if g: Token :| Around(Run(NewTask, before), g) {
      var i := WhereJoined(before, g);
    }
  }

  lemma EarlierIsOver(before: seq<Timed>, claim: Timed, earlier: Token)
    requires Proper(NewTask, 0.0, before) && Guarded(NewTask, before) && LastTime(0.0, before) <= claim.now
    requires claim.cmd.Claim? && Claimable(Run(NewTask, before).task, claim.now)
    ensures !Live(Run(NewTask, before), earlier, claim.now)
  {
    RunKeepsInv(NewTask, 0.0, before);
    GuardedStaysUndisturbed(NewTask, 0.0, before);
    if earlier in Run(NewTask, before).granted {
      assert Accounted(Run(NewTask, before), earlier, LastTime(0.0, before));
    }
  }

  /** Resuming keeps the lease fields of the row: a claim right after it creates a second live executor if and only if
      the row still carried an unexpired lease, or one that was dropped earlier is not over, or an executor without a
      lease is around. */
  lemma ResumeSplitsExactly(before: seq<Timed>, now: Time)
    requires Proper(NewTask, 0.0, before) && LastTime(0.0, before) <= now && Run(NewTask, before).task.Resumable()
    ensures var h := Run(NewTask, before);
            var resumed := Step(h, Timed(now, Resume));
            && Claimable(resumed.task, now)
            && (SomeoneLive(resumed, now)
                <==> (|| Promised(h.task, now) || (exists t: Token :: t in h.dropped && Live(h, t, now))
                      || exists g: Token :: Around(h, g)))
  {
    var h := Run(NewTask, before);
    RunKeepsInv(NewTask, 0.0, before);
    var resumed := Step(h, Timed(now, Resume));
    if Promised(h.task, now) {
      assert Live(resumed, h.task.token.value, now);
    }
    if t: Token :| t in h.dropped && Live(h, t, now) {
      assert Live(resumed, t, now);
    }
    forall t: Token | Live(resumed, t, now)
      ensures Live(h, t, now)
      ensures h.task.token == Some(t) || t in h.dropped
    {
      assert Accounted(h, t, LastTime(0.0, before));
    }
    assert forall g: Token :: Around(resumed, g) <==> Around(h, g);
  }

  lemma ThreeSteps(h: History, a: Timed, b: Timed, c: Timed)
    ensures Run(h, [a, b, c]) == Step(Step(Step(h, a), b), c)
    ensures forall clock: Time :: Proper(h, clock, [a, b, c]) <==>
              && clock <= a.now <= b.now <= c.now
              && Allowed(h, a) && Allowed(Step(h, a), b) && Allowed(Step(Step(h, a), b), c)
  {
    assert [a, b, c][1..] == [b, c] && [b, c][1..] == [c] && [c][1..] == [];
    assert Run(Step(Step(h, a), b), [c]) == Step(Step(Step(h, a), b), c);
    forall clock: Time
      ensures Proper(h, clock, [a, b, c]) <==>
                && clock <= a.now <= b.now <= c.now
                && Allowed(h, a) && Allowed(Step(h, a), b) && Allowed(Step(Step(h, a), b), c)
    {
      assert Proper(Step(Step(h, a), b), b.now, [c]) <==> b.now <= c.now && Allowed(Step(Step(h, a), b), c);
    }
  }

  /** The first case occurs: a cancelled task keeps its token, and the resume endpoint accepts cancelled tasks. */
  lemma CancelThenResumeSplits(first: Token, second: Token)
    requires first != second
    ensures var es := [Timed(0.0, Claim(first)), Timed(1.0, Cancel), Timed(2.0, Resume)];
            var h := Run(NewTask, es);
            && Proper(NewTask, 0.0, es) && Claimable(h.task, 3.0) && Live(h, first, 3.0)
            && Step(h, Timed(3.0, Claim(second))).task.token == Some(second)
  {
    ThreeSteps(NewTask, Timed(0.0, Claim(first)), Timed(1.0, Cancel), Timed(2.0, Resume));
  }

  /** So does the second: the reject endpoint fails a task that its executor is still waiting with, which clears the
      lease, and the resume endpoint accepts failed tasks. */
  lemma RejectThenResumeSplits(first: Token, second: Token)
    requires first != second
    ensures var es := [Timed(0.0, Claim(first)), Timed(1.0, SetStatus(WaitingApproval, Some(first)))]
                      + [Timed(2.0, SetStatus(Failed, None)), Timed(3.0, Resume)];
            var h := Run(NewTask, es);
            && Proper(NewTask, 0.0, es) && Claimable(h.task, 4.0) && !Promised(h.task, 4.0) && Live(h, first, 4.0)
            && Step(h, Timed(4.0, Claim(second))).task.token == Some(second)
  {
    var a, b := Timed(0.0, Claim(first)), Timed(1.0, SetStatus(WaitingApproval, Some(first)));
    var c, d := Timed(2.0, SetStatus(Failed, None)), Timed(3.0, Resume);
    var es := [a, b] + [c, d];
    assert es[1..] == [b, c, d];
    ThreeSteps(Step(NewTask, a), b, c, d);
  }

  lemma TwoSteps(h: History, a: Timed, b: Timed)
    ensures Run(h, [a, b]) == Step(Step(h, a), b)
    ensures forall clock: Time :: Proper(h, clock, [a, b]) <==>
              clock <= a.now <= b.now && Allowed(h, a) && Allowed(Step(h, a), b)
  {
    assert [a, b][1..] == [b] && [b][1..] == [];
    assert forall clock: Time :: Proper(Step(h, a), clock, [b]) <==> clock <= b.now && Allowed(Step(h, a), b);
    assert Run(Step(h, a), [b]) == Step(Step(h, a), b);
  }

  /** So does the third: a task cancelled before its workflow executor started is executed without a claim; an approval
      makes it running without a lease, and a restart takes it for abandoned. */
  lemma JoinThenRestartSplits(guest: Token, second: Token)
    requires guest != second
    ensures var es := [Timed(0.0, Cancel), Timed(1.0, Join(guest)), Timed(2.0, SetStatus(WaitingApproval, Some(guest)))]
                      + [Timed(3.0, SetStatus(Running, None)), Timed(4.0, Restart)];
            var h := Run(NewTask, es);
            && Proper(NewTask, 0.0, es) && Claimable(h.task, 5.0) && Around(h, guest)
            && !Promised(h.task, 5.0) && h.granted == map[] && h.dropped == {}
            && Step(h, Timed(5.0, Claim(second))).task.token == Some(second)
  {
    var a, b, c := Timed(0.0, Cancel), Timed(1.0, Join(guest)), Timed(2.0, SetStatus(WaitingApproval, Some(guest)));
    var d, e := Timed(3.0, SetStatus(Running, None)), Timed(4.0, Restart);
    var first := Step(Step(Step(NewTask, a), b), c);
    ThreeSteps(NewTask, a, b, c);
    TwoSteps(first, d, e);
    RunSplits(NewTask, [a, b, c], [d, e]);
    ProperJoins(NewTask, 0.0, [a, b, c], [d, e]);
  }

  /** And the fourth: a message to an integration node makes a pending task, enqueues it and starts the node, which
      claims nothing; a worker claims the task from the queue. */
  lemma NodeDispatchSplits(node: Token, worker: Token)
    requires node != worker
    ensures var es := [Timed(0.0, Join(node))];
            var h := Run(NewTask, es);
            && Proper(NewTask, 0.0, es) && Claimable(h.task, 1.0) && Around(h, node)
            && !Promised(h.task, 1.0) && h.granted == map[] && h.dropped == {}
            && Step(h, Timed(1.0, Claim(worker))).task.token == Some(worker)
  {
    var e := Timed(0.0, Join(node));
    assert [e] == [e] + [];
    ProperFirst(NewTask, 0.0, e, [], Step(NewTask, e));
  }

  lemma {:induction false} ProperJoins(h: History, clock: Time, a: seq<Timed>, b: seq<Timed>)
    requires Proper(h, clock, a) && Proper(Run(h, a), LastTime(clock, a), b)
    ensures Proper(h, clock, a + b)
    decreases |a|
  {
    if a == [] {
      assert a + b == b;
    } else {
      var e, rest, next := a[0], a[1..], Step(h, a[0]);
      assert a + b == [e] + (rest + b) && a == [e] + rest;
      ProperFirst(h, clock, e, rest, next);
      LastTimeOfRest(clock, a);
      ProperJoins(next, e.now, rest, b);
      ProperFirst(h, clock, e, rest + b, next);
    }
  }
}
