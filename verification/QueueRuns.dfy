/** What holds in every run of the task queue, for any number of workers and any interleaving. */
module QueueRuns {
  import opened Wrappers
  import opened TaskQueue

  // ---- The invariant of a row

  /** A row is leased exactly when it has a token, and exactly when it has an expiry; its attempts stay
      within the limit (a row enqueued with a limit below zero is simply never claimed). */
  predicate RowOk(it: Item) {
    && (it.status == Leased <==> it.token.Some?)
    && (it.status == Leased <==> it.expiresAt.Some?)
    && (it.attempts <= it.maxAttempts || it.attempts == 0)
  }

  ghost predicate TableOk(rows: Rows) {
    forall id :: id in rows ==> RowOk(rows[id])
  }

  lemma EffectKeepsRow(id: int, it: Item, e: Timed)
    requires RowOk(it)
    ensures RowOk(Effect(id, it, e))
  {
  }

  lemma ApplyKeepsTable(rows: Rows, e: Timed)
    requires TableOk(rows)
    ensures TableOk(Apply(rows, e))
  {
    forall id | id in rows
      ensures RowOk(Effect(id, rows[id], e))
    {
      EffectKeepsRow(id, rows[id], e);
    }
    assert e.cmd.Insert? ==> RowOk(Fresh(e.cmd, e.now));
  }

  lemma {:induction false} RunKeepsTable(rows: Rows, es: seq<Timed>)
    requires TableOk(rows)
    ensures TableOk(Run(rows, es))
    decreases |es|
  {
    if es != [] {
      ApplyKeepsTable(rows, es[0]);
      RunKeepsTable(Apply(rows, es[0]), es[1..]);
    }
  }

  /** Command `e` takes the lease of row `id`. */
  predicate Takes(rows: Rows, e: Timed, id: int) {
    e.cmd.Claim? && e.cmd.id == id && id in rows && rows[id].Claimable(e.cmd.selectedAt)
  }

  function ClaimCount(rows: Rows, es: seq<Timed>, id: int): nat
    decreases |es|
  {
    if es == [] then 0
    else (if Takes(rows, es[0], id) then 1 else 0) + ClaimCount(Apply(rows, es[0]), es[1..], id)
  }

  function AttemptsOf(rows: Rows, id: int): nat {
    if id in rows then rows[id].attempts else 0
  }

  lemma AttemptsStep(rows: Rows, e: Timed, id: int)
    ensures AttemptsOf(Apply(rows, e), id) == AttemptsOf(rows, id) + if Takes(rows, e, id) then 1 else 0
  {
    assert e.cmd.Insert? ==> Fresh(e.cmd, e.now).attempts == 0;
  }

  lemma {:induction false} ClaimsAreCounted(rows: Rows, es: seq<Timed>, id: int)
    ensures AttemptsOf(Run(rows, es), id) == AttemptsOf(rows, id) + ClaimCount(rows, es, id)
    decreases |es|
  {
    if es != [] {
      AttemptsStep(rows, es[0], id);
      ClaimsAreCounted(Apply(rows, es[0]), es[1..], id);
    }
  }

  /** Every reachable table satisfies the row invariant, and the number of successful claims ever made on a
      row is its attempt count, which never exceeds the limit. */
  lemma ReachableTable(es: seq<Timed>, id: int)
    ensures TableOk(Run(map[], es))
    ensures AttemptsOf(Run(map[], es), id) == ClaimCount(map[], es, id)
    ensures id in Run(map[], es) ==> ClaimCount(map[], es, id) <= Max(0, Run(map[], es)[id].maxAttempts)
  {
    RunKeepsTable(map[], es);
    ClaimsAreCounted(map[], es, id);
    if id in Run(map[], es) {
      assert RowOk(Run(map[], es)[id]);
    }
  }

  // ---- Terminal rows

  predicate TerminalAt(rows: Rows, id: int) {
    id in rows && rows[id].Terminal()
  }

  /** A write by primary key alone: that of an enqueue that saw a live row, or that of a fail. */
  predicate Overwrites(e: Timed, id: int) {
    || (e.cmd.Requeue? && e.cmd.id == id && (e.cmd.seen == Queued || e.cmd.seen == Leased))
    || (e.cmd.FailWrite? && e.cmd.id == id)
  }

  /** The write of an enqueue that saw the row leased, or of a fail that lets it be tried again. */
  predicate Revives(e: Timed, id: int) {
    (e.cmd.Requeue? && e.cmd.id == id && e.cmd.seen == Leased) || (e.cmd.FailWrite? && e.cmd.id == id && !e.cmd.dead)
  }

  /** Of all commands only such a write makes a terminal row live again; no other command but the write of an enqueue or
      a fail changes anything, and that of an enqueue no more than the time from which the row is available. */
  lemma TerminalStep(rows: Rows, e: Timed, id: int)
    requires TableOk(rows) && TerminalAt(rows, id)
    ensures TerminalAt(Apply(rows, e), id) <==> !Revives(e, id)
    ensures e.cmd.Requeue? && !Revives(e, id) ==>
              Apply(rows, e)[id] == rows[id].(availableAt := Apply(rows, e)[id].availableAt)
    ensures !Overwrites(e, id) ==> Apply(rows, e)[id] == rows[id]
  {
    assert RowOk(rows[id]);
  }

  /** Completed and dead rows are absorbing under every command but the late write of an enqueue or a fail, also under
      the expired-lease arm of the claim, and the whole row stays as it is. */
  lemma {:induction false} TerminalRowsAbsorb(rows: Rows, es: seq<Timed>, id: int)
    requires TableOk(rows) && TerminalAt(rows, id)
    requires forall k :: 0 <= k < |es| ==> !Overwrites(es[k], id)
    ensures id in Run(rows, es) && Run(rows, es)[id] == rows[id]
    decreases |es|
  {
    if es != [] {
      ApplyKeepsTable(rows, es[0]);
      TerminalStep(rows, es[0], id);
      TerminalRowsAbsorb(Apply(rows, es[0]), es[1..], id);
    }
  }

  ghost predicate StaysTerminal(rows: Rows, es: seq<Timed>, id: int) {
    forall k :: 0 <= k <= |es| ==> TerminalAt(Run(rows, es[..k]), id)
  }

  lemma StaysTerminalFirst(rows: Rows, e: Timed, rest: seq<Timed>, id: int)
    ensures StaysTerminal(rows, [e] + rest, id) <==>
              TerminalAt(rows, id) && StaysTerminal(Apply(rows, e), rest, id)
  {
    var es := [e] + rest;
    forall k | 0 <= k <= |rest|
      ensures Run(rows, es[..k + 1]) == Run(Apply(rows, e), rest[..k])
    {
      assert es[..k + 1] == [e] + rest[..k];
      assert ([e] + rest[..k])[1..] == rest[..k];
    }
    assert es[..0] == [];
    if StaysTerminal(rows, es, id) {
      forall k | 0 <= k <= |rest|
        ensures TerminalAt(Run(Apply(rows, e), rest[..k]), id)
      {
        assert TerminalAt(Run(rows, es[..k + 1]), id);
      }
    }
    if TerminalAt(rows, id) && StaysTerminal(Apply(rows, e), rest, id) {
      forall k | 0 <= k <= |es|
        ensures TerminalAt(Run(rows, es[..k]), id)
      {
        assert k > 0 ==> TerminalAt(Run(Apply(rows, e), rest[..k - 1]), id);
      }
    }
  }

  /** A terminal row stays terminal through a run if and only if no enqueue that saw it leased and no retrying fail
      commits in it. */
  lemma {:induction false} TerminalStaysIff(rows: Rows, es: seq<Timed>, id: int)
    requires TableOk(rows) && TerminalAt(rows, id)
    ensures StaysTerminal(rows, es, id) <==> forall k :: 0 <= k < |es| ==> !Revives(es[k], id)
    decreases |es|
  {
    if es == [] {
      assert es[..0] == [];
    } else {
      var e, rest := es[0], es[1..];
      assert es == [e] + rest;
      ApplyKeepsTable(rows, e);
      TerminalStep(rows, e, id);
      StaysTerminalFirst(rows, e, rest, id);
      if TerminalAt(Apply(rows, e), id) {
        TerminalStaysIff(Apply(rows, e), rest, id);
        assert forall k :: 1 <= k < |es| ==> es[k] == rest[k - 1];
        assert forall k :: 0 <= k < |rest| ==> rest[k] == es[k + 1];
      } else {
        assert rest[..0] == [] && Run(Apply(rows, e), rest[..0]) == Apply(rows, e);
      }
    }
  }

  // ---- Fencing

  predicate Stored(rows: Rows, id: int, t: Token) {
    id in rows && rows[id].token == Some(t)
  }

  /** Every claim draws a new token. */
  ghost predicate FreshTokens(es: seq<Timed>) {
    forall i, j :: 0 <= i < j < |es| && es[i].cmd.Claim? && es[j].cmd.Claim? ==>
                     es[i].cmd.token != es[j].cmd.token
  }

  predicate IsClaimOf(e: Timed, id: int, t: Token) {
    e.cmd.Claim? && e.cmd.id == id && e.cmd.token == t
  }

  function StateAt(es: seq<Timed>, k: nat): Rows
    requires k <= |es|
  {
    Run(map[], es[..k])
  }

  lemma StateStep(es: seq<Timed>, k: nat)
    requires k < |es|
    ensures StateAt(es, k + 1) == Apply(StateAt(es, k), es[k])
  {
    assert es[..k + 1] == es[..k] + [es[k]];
    RunSnoc(map[], es[..k], es[k]);
  }

  /** Without a claim that stores it, a token that is not in a row does not get there. */
  lemma {:induction false} NotStoredWithoutClaim(es: seq<Timed>, j: nat, k: nat, id: int, t: Token)
    requires j <= k <= |es|
    requires !Stored(StateAt(es, j), id, t)
    requires forall c :: j <= c < k ==> !IsClaimOf(es[c], id, t)
    ensures !Stored(StateAt(es, k), id, t)
    decreases k - j
  {
    if j < k {
      StateStep(es, j);
      assert !IsClaimOf(es[j], id, t);
      NotStoredWithoutClaim(es, j + 1, k, id, t);
    }
  }

  lemma StoredByClaim(es: seq<Timed>, k: nat, id: int, t: Token) returns (c: nat)
    requires k <= |es| && Stored(StateAt(es, k), id, t)
    ensures c < k && IsClaimOf(es[c], id, t)
  {
    if forall c :: 0 <= c < k ==> !IsClaimOf(es[c], id, t) {
      NotStoredWithoutClaim(es, 0, k, id, t);
    }
    c :| 0 <= c < k && IsClaimOf(es[c], id, t);
  }

  /** Fencing: once a token that owned a row is no longer stored there, it is never stored again in any row. */
  lemma LostTokenStaysLost(es: seq<Timed>, id: int, t: Token, i: nat, j: nat, k: nat, other: int)
    requires FreshTokens(es) && i < j <= k <= |es|
    requires Stored(StateAt(es, i), id, t) && !Stored(StateAt(es, j), id, t)
    ensures !Stored(StateAt(es, k), other, t)
  {
    var c := StoredByClaim(es, i, id, t);
    if Stored(StateAt(es, k), other, t) {
      if other == id {
        NotStoredWithoutClaim(es, j, k, id, t);
      } else {
        var d := StoredByClaim(es, k, other, t);
      }
    }
  }

  /** The row is owned by the token. */
  predicate OwnedAt(es: seq<Timed>, k: nat, id: int, t: Token)
    requires k <= |es|
  {
    id in StateAt(es, k) && StateAt(es, k)[id].OwnedBy(t)
  }

  /** A renewal or settlement that presents token `t`. */
  predicate Presents(e: Timed, t: Token) {
    (e.cmd.Renew? || e.cmd.Complete? || e.cmd.FailWrite?) && e.cmd.token == t
  }

  /** Every write by primary key follows from a row that was read before: an enqueue found it with the status seen, a
      fail found it owned by its token. */
  ghost predicate HonestWrites(es: seq<Timed>) {
    forall k :: 0 <= k < |es| && (es[k].cmd.Requeue? || es[k].cmd.FailWrite?) ==> exists j: nat :: ReadAt(es, j, k)
  }

  predicate ReadAt(es: seq<Timed>, j: nat, k: nat)
    requires k < |es| && (es[k].cmd.Requeue? || es[k].cmd.FailWrite?)
  {
    && j <= k && es[k].cmd.id in StateAt(es, j)
    && var it := StateAt(es, j)[es[k].cmd.id];
       if es[k].cmd.Requeue? then it.status == es[k].cmd.seen else it.OwnedBy(es[k].cmd.token)
  }

  /** ... and from then on every renewal and every completion that presents it is refused: it changes no row. A failure
      that presents it finds nothing to settle either; only one that had read the row while the token owned it can still
      commit. */
  lemma LostTokenIsRefused(es: seq<Timed>, id: int, t: Token, i: nat, j: nat, k: nat)
    requires FreshTokens(es) && i < j <= k < |es|
    requires Stored(StateAt(es, i), id, t) && !Stored(StateAt(es, j), id, t)
    requires Presents(es[k], t)
    ensures forall other :: !OwnedAt(es, k, other, t)
    ensures !es[k].cmd.FailWrite? ==> StateAt(es, k + 1) == StateAt(es, k)
    ensures es[k].cmd.FailWrite? && HonestWrites(es) ==>
              exists r: nat :: r < j && OwnedAt(es, r, es[k].cmd.id, t)
  {
    StateStep(es, k);
    forall other
      ensures !Stored(StateAt(es, k), other, t) && !OwnedAt(es, k, other, t)
    {
      LostTokenStaysLost(es, id, t, i, j, k, other);
    }
    if !es[k].cmd.FailWrite? {
      RefusedChangesNothing(StateAt(es, k), es[k], t);
    } else if HonestWrites(es) {
      var r: nat :| ReadAt(es, r, k);
      if r >= j {
        LostTokenStaysLost(es, id, t, i, j, r, es[k].cmd.id);
      }
      assert OwnedAt(es, r, es[k].cmd.id, t);
    }
  }

  lemma RefusedChangesNothing(rows: Rows, e: Timed, t: Token)
    requires Presents(e, t) && !e.cmd.FailWrite? && forall other :: !Stored(rows, other, t)
    ensures Apply(rows, e) == rows
  {
    forall other | other in rows
      ensures Effect(other, rows[other], e) == rows[other]
    {
      assert !Stored(rows, other, t);
    }
  }

  /** Command `k` of the run settles the claim that drew `t`: it completes, kills or re-queues the row. */
  predicate Settles(es: seq<Timed>, k: nat, id: int, t: Token)
    requires k < |es|
  {
    && Presents(es[k], t) && es[k].cmd.id == id
    && ((es[k].cmd.Complete? && OwnedAt(es, k, id, t)) || (es[k].cmd.FailWrite? && id in StateAt(es, k)))
  }

  /** A failure that commits after its token has lost the row. */
  predicate IsStale(es: seq<Timed>, k: nat)
    requires k < |es|
  {
    es[k].cmd.FailWrite? && !OwnedAt(es, k, es[k].cmd.id, es[k].cmd.token)
  }

  /** Each claim is settled at most once, except by a failure that commits late. */
  lemma SettledAtMostOnce(es: seq<Timed>, k: nat, l: nat, id: int, other: int, t: Token)
    requires FreshTokens(es) && k < |es| && l < |es|
    requires Settles(es, k, id, t) && Settles(es, l, other, t)
    ensures (k == l && id == other) || IsStale(es, k) || IsStale(es, l)
  {
    if OwnedAt(es, k, id, t) && OwnedAt(es, l, other, t) {
      if k < l {
        StateStep(es, k);
        LostTokenStaysLost(es, id, t, k, k + 1, l, other);
      } else if l < k {
        StateStep(es, l);
        LostTokenStaysLost(es, other, t, l, l + 1, k, id);
      }
    }
  }

  // ---- When a settled row comes back

  lemma StateAfter(es: seq<Timed>, i: nat, k: nat)
    requires i <= k <= |es|
    ensures StateAt(es, k) == Run(StateAt(es, i), es[i..k]) && TableOk(StateAt(es, i))
  {
    RunKeepsTable(map[], es[..i]);
    RunConcat(map[], es[..i], es[i..k]);
    assert es[..i] + es[i..k] == es[..k];
  }

  /** A row that is terminal at one point of a run is the same row at every later point, if no enqueue and no failure of
      it commits in between. */
  lemma TerminalAtMostOnce(es: seq<Timed>, id: int, i: nat, k: nat)
    requires i <= k <= |es| && TerminalAt(StateAt(es, i), id)
    requires forall m :: i <= m < k ==> !Overwrites(es[m], id)
    ensures id in StateAt(es, k) && StateAt(es, k)[id] == StateAt(es, i)[id]
  {
    StateAfter(es, i, k);
    TerminalRowsAbsorb(StateAt(es, i), es[i..k], id);
  }

  lemma PrefixOfPart(es: seq<Timed>, i: nat, m: nat, k: nat)
    requires i <= m <= k <= |es|
    ensures es[i..m] == es[i..k][..m - i]
  {
  }

  /** A row terminal at point `i` is terminal at every point up to `k` if and only if no enqueue that saw it leased and
      no retrying fail commits in between ... */
  lemma TerminalUntilRevived(es: seq<Timed>, id: int, i: nat, k: nat)
    requires i <= k <= |es| && TerminalAt(StateAt(es, i), id)
    ensures (forall m :: i <= m <= k ==> TerminalAt(StateAt(es, m), id))
            <==> (forall m :: i <= m < k ==> !Revives(es[m], id))
  {
    var start, part := StateAt(es, i), es[i..k];
    StateAfter(es, i, k);
    TerminalStaysIff(start, part, id);
    forall m | i <= m <= k
      ensures StateAt(es, m) == Run(start, part[..m - i])
    {
      StateAfter(es, i, m);
      PrefixOfPart(es, i, m, k);
    }
    assert forall m :: i <= m < k ==> es[m] == part[m - i];
    assert forall n :: 0 <= n < |part| ==> part[n] == es[n + i];
    if StaysTerminal(start, part, id) {
      forall m | i <= m <= k
        ensures TerminalAt(StateAt(es, m), id)
      {
        assert TerminalAt(Run(start, part[..m - i]), id);
      }
    }
    if forall m :: i <= m <= k ==> TerminalAt(StateAt(es, m), id) {
      forall n | 0 <= n <= |part|
        ensures TerminalAt(Run(start, part[..n]), id)
      {
        assert TerminalAt(StateAt(es, n + i), id);
      }
    }
  }

  /** ... and the first of them had read the row before it became terminal, while it was leased. */
  lemma ReviverReadBefore(es: seq<Timed>, id: int, i: nat, k: nat) returns (j: nat)
    requires HonestWrites(es) && i <= k < |es| && Revives(es[k], id)
    requires forall m :: i <= m <= k ==> TerminalAt(StateAt(es, m), id)
    ensures j < i && id in StateAt(es, j) && StateAt(es, j)[id].status == Leased
  {
    j :| ReadAt(es, j, k);
    forall m | i <= m <= k
      ensures !(id in StateAt(es, m) && StateAt(es, m)[id].status == Leased)
    {
      assert TerminalAt(StateAt(es, m), id);
    }
  }

  /** It happens: an enqueue reads the leased row, the worker completes it, the enqueue commits, and the completed row
      is queued and can be claimed again. */
  lemma StaleEnqueueRevives(t: Token, now: Time)
    ensures var es := [Timed(now, Insert(7, 1, 0, 3, 1800)), Timed(now, Claim(1, t, now, 60)),
                       Timed(now, Complete(1, t)), Timed(now, Requeue(1, Leased, now))];
            && ReadAt(es, 2, 3)
            && TerminalAt(StateAt(es, 3), 1)
            && 1 in StateAt(es, 4) && StateAt(es, 4)[1].status == Queued && StateAt(es, 4)[1].Claimable(now)
  {
    var a, b := Timed(now, Insert(7, 1, 0, 3, 1800)), Timed(now, Claim(1, t, now, 60));
    var c, d := Timed(now, Complete(1, t)), Timed(now, Requeue(1, Leased, now));
    var es := [a, b, c, d];
    assert es[..0] == [];
    StateStep(es, 0);
    StateStep(es, 1);
    StateStep(es, 2);
    StateStep(es, 3);
    assert StateAt(es, 1) == map[1 := Fresh(a.cmd, now)];
  }

  /** A table of one row changes as the row. */
  lemma OneRow(es: seq<Timed>, k: nat, id: int, it: Item)
    requires k < |es| && StateAt(es, k) == map[id := it] && !es[k].cmd.Insert?
    ensures StateAt(es, k + 1) == map[id := Effect(id, it, es[k])]
  {
    StateStep(es, k);
  }

  /** So can a failure: it reads the row while its lease is running out, a sweep gives the row to another worker, who
      completes it, and then the failure commits. */
  lemma StaleFailRevives(t: Token, u: Token, now: Time)
    requires t != u
    ensures var late := now + 2000.0;
            var es := [Timed(now, Insert(7, 1, 0, 3, 1800)), Timed(now, Claim(1, t, now, 60)), Timed(late, Recover)]
                      + [Timed(late, Claim(1, u, late, 60)), Timed(late, Complete(1, u)),
                         Timed(late, FailWrite(1, t, false, "", now))];
            && ReadAt(es, 2, 5)
            && TerminalAt(StateAt(es, 5), 1)
            && 1 in StateAt(es, 6) && StateAt(es, 6)[1].status == Queued && StateAt(es, 6)[1].Claimable(late)
  {
    var late := now + 2000.0;
    var es := [Timed(now, Insert(7, 1, 0, 3, 1800)), Timed(now, Claim(1, t, now, 60)), Timed(late, Recover)]
              + [Timed(late, Claim(1, u, late, 60)), Timed(late, Complete(1, u)),
                 Timed(late, FailWrite(1, t, false, "", now))];
    var row := Item(7, 0, Queued, 0, 3, 1800, now, None, None, None);
    assert es[..0] == [];
    StateStep(es, 0);
    assert StateAt(es, 1) == map[1 := row];
    OneRow(es, 1, 1, row);
    var row2 := Effect(1, row, es[1]);
    OneRow(es, 2, 1, row2);
    var row3 := Effect(1, row2, es[2]);
    OneRow(es, 3, 1, row3);
    var row4 := Effect(1, row3, es[3]);
    OneRow(es, 4, 1, row4);
    OneRow(es, 5, 1, Effect(1, row4, es[4]));
  }

  // ---- A live owner keeps its row

  const CLAIM_LEASE_SECONDS := 60

  /** The lease a claim grants, counted from the clock of its SELECT. */
  function LeaseLength(it: Item): Time {
    Max(CLAIM_LEASE_SECONDS, it.timeoutSeconds) as real
  }

  /** The lease the worker's renewer asks for: a timeout of zero reads as 1800. */
  function RenewSeconds(it: Item): int {
    Max(60, if it.timeoutSeconds == 0 then 1800 else it.timeoutSeconds)
  }

  predicate IsRenewalOf(e: Timed, id: int, t: Token) {
    e.cmd.Renew? && e.cmd.id == id && e.cmd.token == t
  }

  /** When the owner last touched its lease, if it did so at `touch` before these commands. */
  function LastTouch(touch: Time, es: seq<Timed>, id: int, t: Token): Time
    decreases |es|
  {
    if es == [] then touch
    else LastTouch(if IsRenewalOf(es[0], id, t) then es[0].now else touch, es[1..], id, t)
  }

  /** No command commits more than `length` after the owner's latest touch, and the clock never runs back. */
  predicate OnTime(touch: Time, clock: Time, es: seq<Timed>, id: int, t: Token, length: Time)
    decreases |es|
  {
    es != [] ==>
      && clock <= es[0].now <= touch + length
      && OnTime(if IsRenewalOf(es[0], id, t) then es[0].now else touch, es[0].now, es[1..], id, t, length)
  }

  /** The commands of the other sessions and of the owner's renewer while the owner works: nobody else has the owner's
      token, and a claim's SELECT is not later than its UPDATE. */
  predicate Elsewhere(e: Timed, id: int, it: Item, t: Token) {
    match e.cmd
    case Insert(_, _, _, _, _) => true
    case Requeue(_, _, _) => true
    case Claim(_, token, selectedAt, _) => token != t && selectedAt <= e.now
    case Renew(i, token, seconds) => i == id && token == t ==> seconds == RenewSeconds(it)
    case Complete(i, token) => !(i == id && token == t)
    case FailWrite(_, _, _, _, _) => true
    case Recover => true
  }

  /** ... and nobody overwrites the row. */
  predicate Working(e: Timed, id: int, it: Item, t: Token) {
    Elsewhere(e, id, it, t) && !Overwrites(e, id)
  }

  /** While the owner touches its lease often enough, no sweep and no other worker's claim, however stale
      its clock, changes the row: only the expiry moves, it never moves back, and it always covers the
      full lease after the latest touch. */
  lemma {:induction false} LiveOwnerKeepsRow(rows: Rows, es: seq<Timed>, id: int, t: Token, touch: Time, clock: Time)
    requires id in rows && rows[id].OwnedBy(t) && rows[id].expiresAt.Some? && touch <= clock
    requires touch + LeaseLength(rows[id]) <= rows[id].expiresAt.value <= touch + RenewSeconds(rows[id]) as real
    requires OnTime(touch, clock, es, id, t, LeaseLength(rows[id]))
    requires forall i :: 0 <= i < |es| ==> Working(es[i], id, rows[id], t)
    ensures id in Run(rows, es) && Run(rows, es)[id].expiresAt.Some?
    ensures Run(rows, es)[id] == rows[id].(expiresAt := Run(rows, es)[id].expiresAt)
    ensures rows[id].expiresAt.value <= Run(rows, es)[id].expiresAt.value
    ensures LastTouch(touch, es, id, t) + LeaseLength(rows[id]) <= Run(rows, es)[id].expiresAt.value
    decreases |es|
  {
    if es != [] {
      assert Working(es[0], id, rows[id], t);
      var next := Apply(rows, es[0]);
      assert next[id] == rows[id].(expiresAt := next[id].expiresAt);
      forall i | 0 <= i < |es| - 1
        ensures Working(es[1..][i], id, next[id], t)
      {
        assert Working(es[i + 1], id, rows[id], t);
      }
      LiveOwnerKeepsRow(next, es[1..], id, t, if IsRenewalOf(es[0], id, t) then es[0].now else touch, es[0].now);
    }
  }

  /** The write takes the row from its owner, whoever that is: an enqueue that saw it leased, or a fail. */
  predicate TakesBack(e: Timed, id: int) {
    (e.cmd.Requeue? && e.cmd.id == id && e.cmd.seen == Leased) || (e.cmd.FailWrite? && e.cmd.id == id)
  }

  predicate OwnedThroughout(rows: Rows, es: seq<Timed>, id: int, t: Token)
    decreases |es|
  {
    && id in rows && rows[id].OwnedBy(t)
    && (es != [] ==> OwnedThroughout(Apply(rows, es[0]), es[1..], id, t))
  }

  lemma OwnerStep(rows: Rows, e: Timed, id: int, t: Token, touch: Time)
    requires id in rows && rows[id].OwnedBy(t) && rows[id].expiresAt.Some?
    requires touch + LeaseLength(rows[id]) <= rows[id].expiresAt.value <= touch + RenewSeconds(rows[id]) as real
    requires touch <= e.now <= touch + LeaseLength(rows[id]) && Elsewhere(e, id, rows[id], t)
    ensures var n := Apply(rows, e)[id];
            && (n.OwnedBy(t) <==> !TakesBack(e, id))
            && (!TakesBack(e, id) ==>
                  && n == rows[id].(availableAt := n.availableAt, expiresAt := n.expiresAt) && n.expiresAt.Some?
                  && var late := if IsRenewalOf(e, id, t) then e.now else touch;
                     late + LeaseLength(n) <= n.expiresAt.value <= late + RenewSeconds(n) as real)
  {
  }

  /** An owner that touches its lease often enough owns its row at every point of the run if and only if no enqueue that
      saw the row leased and no fail of an earlier owner commits in it. */
  lemma {:induction false} OwnerKeepsRowIff(rows: Rows, es: seq<Timed>, id: int, t: Token, touch: Time, clock: Time)
    requires id in rows && rows[id].OwnedBy(t) && rows[id].expiresAt.Some? && touch <= clock
    requires touch + LeaseLength(rows[id]) <= rows[id].expiresAt.value <= touch + RenewSeconds(rows[id]) as real
    requires OnTime(touch, clock, es, id, t, LeaseLength(rows[id]))
    requires forall i :: 0 <= i < |es| ==> Elsewhere(es[i], id, rows[id], t)
    ensures OwnedThroughout(rows, es, id, t) <==> forall i :: 0 <= i < |es| ==> !TakesBack(es[i], id)
    decreases |es|
  {
    if es != [] {
      var e, rest, next := es[0], es[1..], Apply(rows, es[0]);
      assert Elsewhere(e, id, rows[id], t);
      OwnerStep(rows, e, id, t, touch);
      if TakesBack(e, id) {
        assert !OwnedThroughout(next, rest, id, t);
      } else {
        forall i | 0 <= i < |rest|
          ensures Elsewhere(rest[i], id, next[id], t)
        {
          assert Elsewhere(es[i + 1], id, rows[id], t);
        }
        OwnerKeepsRowIff(next, rest, id, t, if IsRenewalOf(e, id, t) then e.now else touch, e.now);
        assert forall i :: 1 <= i < |es| ==> es[i] == rest[i - 1];
        assert forall i :: 0 <= i < |rest| ==> rest[i] == es[i + 1];
      }
    }
  }

  /** When the owner's lease ends after these commands, if it ended at `expiry` before. */
  function ExpiryAfter(expiry: Time, es: seq<Timed>, id: int, t: Token, renewal: int): Time
    decreases |es|
  {
    if es == [] then expiry
    else ExpiryAfter(if IsRenewalOf(es[0], id, t) then es[0].now + renewal as real else expiry, es[1..], id, t, renewal)
  }

  lemma {:induction false} ExpiryIsExact(rows: Rows, es: seq<Timed>, id: int, t: Token, touch: Time, clock: Time)
    requires id in rows && rows[id].OwnedBy(t) && rows[id].expiresAt.Some? && touch <= clock
    requires touch + LeaseLength(rows[id]) <= rows[id].expiresAt.value <= touch + RenewSeconds(rows[id]) as real
    requires OnTime(touch, clock, es, id, t, LeaseLength(rows[id]))
    requires forall i :: 0 <= i < |es| ==> Working(es[i], id, rows[id], t)
    ensures id in Run(rows, es)
    ensures var end := ExpiryAfter(rows[id].expiresAt.value, es, id, t, RenewSeconds(rows[id]));
            Run(rows, es)[id].expiresAt == Some(end)
    decreases |es|
  {
    if es != [] {
      var e, rest, next := es[0], es[1..], Apply(rows, es[0]);
      assert Working(e, id, rows[id], t);
      OwnerStep(rows, e, id, t, touch);
      assert next[id].expiresAt == if IsRenewalOf(e, id, t) then Some(e.now + RenewSeconds(rows[id]) as real)
                                   else rows[id].expiresAt;
      forall i | 0 <= i < |rest|
        ensures Working(rest[i], id, next[id], t)
      {
        assert Working(es[i + 1], id, rows[id], t);
      }
      ExpiryIsExact(next, rest, id, t, if IsRenewalOf(e, id, t) then e.now else touch, e.now);
    }
  }

  /** The lease is exact: after a claim and any run in which the owner renews in time, a sweep takes the row from it if
      and only if more has passed since the SELECT of the claim or the latest renewal than that granted, and attempts
      are left. */
  lemma LateOwnerLosesRow(rows: Rows, claim: Timed, es: seq<Timed>, now: Time)
    requires claim.cmd.Claim? && claim.cmd.leaseSeconds == CLAIM_LEASE_SECONDS && claim.cmd.selectedAt <= claim.now
    requires Takes(rows, claim, claim.cmd.id)
    requires OnTime(claim.cmd.selectedAt, claim.now, es, claim.cmd.id, claim.cmd.token, LeaseLength(rows[claim.cmd.id]))
    requires forall e :: e in es ==> Working(e, claim.cmd.id, rows[claim.cmd.id], claim.cmd.token)
    ensures var id, it, t := claim.cmd.id, rows[claim.cmd.id], claim.cmd.token;
            var end := ExpiryAfter(claim.cmd.selectedAt + LeaseLength(it), es, id, t, RenewSeconds(it));
            var swept := Apply(Run(Apply(rows, claim), es), Timed(now, Recover));
            && id in swept
            && (!swept[id].OwnedBy(t) <==> end < now && it.attempts + 1 < it.maxAttempts)
  {
    var id, t, claimed := claim.cmd.id, claim.cmd.token, Apply(rows, claim);
    ClaimedRowStays(rows, claim, es);
    forall i | 0 <= i < |es|
      ensures Working(es[i], id, claimed[id], t)
    {
      assert es[i] in es;
    }
    ExpiryIsExact(claimed, es, id, t, claim.cmd.selectedAt, claim.now);
  }

  /** The lease is exact for other workers too: after a claim and any run in which the owner renews in time, another
      worker's claim takes the row if and only if the lease ended before that worker's SELECT and attempts are left. */
  lemma ExpiredRowIsClaimedIff(rows: Rows, claim: Timed, es: seq<Timed>, u: Token, selectedAt: Time, seconds: int,
                               now: Time)
    requires claim.cmd.Claim? && claim.cmd.leaseSeconds == CLAIM_LEASE_SECONDS && claim.cmd.selectedAt <= claim.now
    requires claim.cmd.id in rows && u != claim.cmd.token
    requires var it := rows[claim.cmd.id];
             && it.attempts < it.maxAttempts
             && (it.status == Queued || (it.expiresAt.Some? && it.expiresAt.value < claim.cmd.selectedAt))
    requires OnTime(claim.cmd.selectedAt, claim.now, es, claim.cmd.id, claim.cmd.token, LeaseLength(rows[claim.cmd.id]))
    requires forall e :: e in es ==> Working(e, claim.cmd.id, rows[claim.cmd.id], claim.cmd.token)
    ensures var id, it, t := claim.cmd.id, rows[claim.cmd.id], claim.cmd.token;
            var end := ExpiryAfter(claim.cmd.selectedAt + LeaseLength(it), es, id, t, RenewSeconds(it));
            var claimed := Apply(Run(Apply(rows, claim), es), Timed(now, Claim(id, u, selectedAt, seconds)));
            && id in claimed
            && (claimed[id].status == Leased && claimed[id].token == Some(u)
                <==> end < selectedAt && it.attempts + 1 < it.maxAttempts)
  {
    var id, t, claimed := claim.cmd.id, claim.cmd.token, Apply(rows, claim);
    ClaimedRowStays(rows, claim, es);
    forall i | 0 <= i < |es|
      ensures Working(es[i], id, claimed[id], t)
    {
      assert es[i] in es;
    }
    ExpiryIsExact(claimed, es, id, t, claim.cmd.selectedAt, claim.now);
  }

  lemma {:induction false} OnTimePrefix(touch: Time, clock: Time, a: seq<Timed>, b: seq<Timed>, id: int, t: Token,
                                       length: Time)
    requires OnTime(touch, clock, a + b, id, t, length)
    ensures OnTime(touch, clock, a, id, t, length)
    decreases |a|
  {
    if a != [] {
      assert (a + b)[1..] == a[1..] + b;
      OnTimePrefix(if IsRenewalOf(a[0], id, t) then a[0].now else touch, a[0].now, a[1..], b, id, t, length);
    }
  }

  /** A whole `_consume_once` of a worker that stays live: its settlement lands on its own claim. A completed
      task completes the row, a failed one (`retry=False`) kills it, a crash re-queues it or kills it at the limit,
      whenever `fail` reads the row between `read` and its commit. */
  lemma WorkerSettlesItsOwnClaim(rows: Rows, claim: Timed, read: seq<Timed>, rest: seq<Timed>, settle: Timed,
                                 error: string, delay: int, retry: bool, now: Time)
    requires claim.cmd.Claim? && claim.cmd.leaseSeconds == CLAIM_LEASE_SECONDS && claim.cmd.selectedAt <= claim.now
    requires Takes(rows, claim, claim.cmd.id)
    requires OnTime(claim.cmd.selectedAt, claim.now, read + rest, claim.cmd.id, claim.cmd.token,
                    LeaseLength(rows[claim.cmd.id]))
    requires forall e :: e in read || e in rest ==> Working(e, claim.cmd.id, rows[claim.cmd.id], claim.cmd.token)
    requires var met := Run(Apply(rows, claim), read);
             || settle.cmd == Complete(claim.cmd.id, claim.cmd.token)
             || (&& claim.cmd.id in met && met[claim.cmd.id].OwnedBy(claim.cmd.token)
                 && settle.cmd == Verdict(met[claim.cmd.id], claim.cmd.id, claim.cmd.token, error, delay, retry, now))
    ensures var id := claim.cmd.id;
            var end := Run(rows, [claim] + (read + rest) + [settle]);
            && id in end && end[id].attempts == rows[id].attempts + 1 && end[id].token.None?
            && end[id].status ==
               if settle.cmd.Complete? then Completed
               else if retry && rows[id].attempts + 1 < rows[id].maxAttempts then Queued
               else Dead
  {
    var id := claim.cmd.id;
    var claimed, es := Apply(rows, claim), read + rest;
    OnTimePrefix(claim.cmd.selectedAt, claim.now, read, rest, id, claim.cmd.token, LeaseLength(rows[id]));
    ClaimedRowStays(rows, claim, read);
    ClaimedRowStays(rows, claim, es);
    assert ([claim] + es)[1..] == es;
    RunSnoc(rows, [claim] + es, settle);
  }

  lemma ClaimedRowStays(rows: Rows, claim: Timed, es: seq<Timed>)
    requires claim.cmd.Claim? && claim.cmd.leaseSeconds == CLAIM_LEASE_SECONDS && claim.cmd.selectedAt <= claim.now
    requires Takes(rows, claim, claim.cmd.id)
    requires OnTime(claim.cmd.selectedAt, claim.now, es, claim.cmd.id, claim.cmd.token, LeaseLength(rows[claim.cmd.id]))
    requires forall e :: e in es ==> Working(e, claim.cmd.id, rows[claim.cmd.id], claim.cmd.token)
    ensures var id := claim.cmd.id;
            var end := Run(Apply(rows, claim), es);
            && id in end && end[id].OwnedBy(claim.cmd.token)
            && end[id].attempts == rows[id].attempts + 1 && end[id].maxAttempts == rows[id].maxAttempts
  {
    var id := claim.cmd.id;
    var claimed := Apply(rows, claim);
    forall i | 0 <= i < |es|
      ensures Working(es[i], id, claimed[id], claim.cmd.token)
    {
      assert es[i] in es;
    }
    LiveOwnerKeepsRow(claimed, es, id, claim.cmd.token, claim.cmd.selectedAt, claim.now);
  }
}
