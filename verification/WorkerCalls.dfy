/** The model calls of the parallel worker stage.

    Every call waits for a permit of one semaphore, and the calls finish in any order; `Enabled` are the events that
    are possible in a state of the pool. */
module WorkerCalls {
  import opened Wrappers

  datatype Outcome = Completed(content: string) | Raised(error: string)

  datatype Call = Acquire(i: nat) | Return(i: nat)

  datatype Pool = Pool(permits: nat, waiting: set<nat>, running: set<nat>, results: map<nat, Outcome>, log: seq<Call>)

  predicate Enabled(p: Pool, c: Call) {
    match c
    case Acquire(i) => i in p.waiting && |p.running| < p.permits
    case Return(i) => i in p.running
  }

  function Next(p: Pool, c: Call, outcomes: seq<Outcome>): Pool
    requires c.Return? ==> c.i < |outcomes|
  {
    match c
    case Acquire(i) => p.(waiting := p.waiting - {i}, running := p.running + {i}, log := p.log + [c])
    case Return(i) => p.(running := p.running - {i}, results := p.results[i := outcomes[i]], log := p.log + [c])
  }

  function Indices(n: nat): (r: set<nat>)
    ensures forall i: nat :: i in r <==> i < n
  {
    if n == 0 then {} else Indices(n - 1) + {n - 1}
  }

  function Start(permits: nat, n: nat): Pool {
    Pool(permits, Indices(n), {}, map[], [])
  }

  /** Every call is waiting, in flight or done, and only one of these. */
  ghost predicate IsPartition(p: Pool, n: nat) {
    && (forall i: nat :: i in p.waiting || i in p.running || i in p.results <==> i < n)
    && (forall i: nat :: i in p.waiting ==> i !in p.running && i !in p.results)
    && (forall i: nat :: i in p.running ==> i !in p.results)
  }

  ghost predicate Logged(p: Pool) {
    && Distinct(p.log)
    && (forall c :: c in p.log ==> c.i !in p.waiting && (c.Return? ==> c.i in p.results))
    && (forall i: nat :: i in p.running || i in p.results ==> Acquire(i) in p.log)
    && (forall i: nat :: i in p.results ==> Return(i) in p.log)
  }

  ghost predicate Inv(p: Pool, outcomes: seq<Outcome>) {
    && IsPartition(p, |outcomes|) && Logged(p)
    && |p.running| <= p.permits
    && forall i: nat :: i in p.results ==> p.results[i] == outcomes[i]
  }

  lemma StepPartitions(p: Pool, c: Call, outcomes: seq<Outcome>)
    requires IsPartition(p, |outcomes|) && Enabled(p, c)
    ensures c.i < |outcomes| && IsPartition(Next(p, c, outcomes), |outcomes|)
  {
  }

  lemma StepLogs(p: Pool, c: Call, outcomes: seq<Outcome>)
    requires IsPartition(p, |outcomes|) && Logged(p) && Enabled(p, c) && c.i < |outcomes|
    ensures Logged(Next(p, c, outcomes))
  {
    assert c !in p.log;
  }

  lemma StepKeeps(p: Pool, c: Call, outcomes: seq<Outcome>)
    requires Inv(p, outcomes) && Enabled(p, c)
    ensures c.i < |outcomes| && Inv(Next(p, c, outcomes), outcomes) && Next(p, c, outcomes).permits == p.permits
  {
    StepPartitions(p, c, outcomes);
    StepLogs(p, c, outcomes);
  }

  ghost predicate IsRun(p: Pool, cs: seq<Call>, outcomes: seq<Outcome>)
    requires Inv(p, outcomes)
    decreases |cs|
  {
    cs != [] ==>
      && Enabled(p, cs[0])
      && (StepKeeps(p, cs[0], outcomes); IsRun(Next(p, cs[0], outcomes), cs[1..], outcomes))
  }

  ghost function Run(p: Pool, cs: seq<Call>, outcomes: seq<Outcome>): Pool
    requires Inv(p, outcomes) && IsRun(p, cs, outcomes)
    decreases |cs|
  {
    if cs == [] then p
    else
      StepKeeps(p, cs[0], outcomes);
      Run(Next(p, cs[0], outcomes), cs[1..], outcomes)
  }

  lemma StartIsValid(permits: nat, outcomes: seq<Outcome>)
    ensures Inv(Start(permits, |outcomes|), outcomes)
  {
  }

  lemma {:induction false} RunKeeps(p: Pool, cs: seq<Call>, outcomes: seq<Outcome>)
    requires Inv(p, outcomes) && IsRun(p, cs, outcomes)
    ensures Inv(Run(p, cs, outcomes), outcomes) && Run(p, cs, outcomes).permits == p.permits
    decreases |cs|
  {
    if cs != [] {
      StepKeeps(p, cs[0], outcomes);
      RunKeeps(Next(p, cs[0], outcomes), cs[1..], outcomes);
    }
  }

  lemma LogFirst(log: seq<Call>, cs: seq<Call>)
    requires cs != []
    ensures log + cs == log + [cs[0]] + cs[1..]
  {
  }

  lemma {:induction false} RunLogs(p: Pool, cs: seq<Call>, outcomes: seq<Outcome>)
    requires Inv(p, outcomes) && IsRun(p, cs, outcomes)
    ensures Run(p, cs, outcomes).log == p.log + cs
    decreases |cs|
  {
    if cs != [] {
      StepKeeps(p, cs[0], outcomes);
      RunLogs(Next(p, cs[0], outcomes), cs[1..], outcomes);
      LogFirst(p.log, cs);
    }
  }

  /** While a call is missing, some event is possible. */
  lemma NeverStuck(p: Pool, outcomes: seq<Outcome>) returns (c: Call)
    requires Inv(p, outcomes) && p.permits > 0 && exists i: nat :: i < |outcomes| && i !in p.results
    ensures Enabled(p, c)
  {
    if p.running != {} {
      var i :| i in p.running;
      c := Return(i);
    } else {
      assert p.waiting != {};
      var i :| i in p.waiting;
      c := Acquire(i);
    }
  }

  ghost function Work(p: Pool): nat {
    2 * |p.waiting| + |p.running|
  }

  lemma StepWorks(p: Pool, c: Call, outcomes: seq<Outcome>)
    requires Inv(p, outcomes) && Enabled(p, c) && c.i < |outcomes|
    ensures Work(Next(p, c, outcomes)) + 1 == Work(p)
  {
  }

  /** What the invariant says of calls in flight, of results and of a pool that cannot go on. */
  lemma InvSays(p: Pool, outcomes: seq<Outcome>)
    requires Inv(p, outcomes) && p.permits > 0
    ensures |p.running| <= p.permits && ResultsAreOutcomes(p, outcomes) && Distinct(p.log)
    ensures (forall c :: !Enabled(p, c)) ==> EveryCallMade(p, outcomes)
  {
    if exists i: nat :: i < |outcomes| && i !in p.results {
      var c := NeverStuck(p, outcomes);
    }
  }

  predicate ResultsAreOutcomes(p: Pool, outcomes: seq<Outcome>) {
    forall i: nat :: i in p.results ==> i < |outcomes| && p.results[i] == outcomes[i]
  }

  predicate EveryCallMade(p: Pool, outcomes: seq<Outcome>) {
    forall i: nat :: i < |outcomes| ==> i in p.results
  }

  /** In every run of the pool, whatever the order: never more calls in flight than permits; the results returned are
      those of the outcome vector; no call is made twice; and a run that cannot go on has made every call. */
  lemma EveryRunIsBounded(permits: nat, cs: seq<Call>, outcomes: seq<Outcome>)
    requires permits > 0 && Inv(Start(permits, |outcomes|), outcomes)
    requires IsRun(Start(permits, |outcomes|), cs, outcomes)
    ensures var end := Run(Start(permits, |outcomes|), cs, outcomes);
            && |end.running| <= permits && Distinct(cs)
            && (forall i: nat :: i in end.results ==> i < |outcomes| && end.results[i] == outcomes[i])
            && ((forall c :: !Enabled(end, c)) ==> forall i: nat :: i < |outcomes| ==> i in end.results)
  {
    var start := Start(permits, |outcomes|);
    RunKeeps(start, cs, outcomes);
    RunLogs(start, cs, outcomes);
    assert start.log + cs == cs;
    InvSays(Run(start, cs, outcomes), outcomes);
  }

  /** The event loop picks any event the semaphore allows. */
  method AnyEvent(p: Pool) returns (c: Call)
    requires p.waiting != {} || p.running != {}
    requires p.permits > 0
    ensures Enabled(p, c)
  {
    var acquire: bool := *;
    if p.waiting != {} && |p.running| < p.permits && (acquire || p.running == {}) {
      var i :| i in p.waiting;
      c := Acquire(i);
    } else {
      var i :| i in p.running;
      c := Return(i);
    }
  }

  /** `asyncio.gather` over the calls, in any order the semaphore allows: the outcomes come back in plan order. */
  method CallAll(outcomes: seq<Outcome>, permits: nat) returns (gathered: seq<Outcome>, pool: Pool)
    requires permits > 0
    ensures gathered == outcomes
    ensures Inv(pool, outcomes) && pool.permits == permits
  {
    pool := Start(permits, |outcomes|);
    StartIsValid(permits, outcomes);
    while pool.waiting != {} || pool.running != {}
      invariant Inv(pool, outcomes) && pool.permits == permits
      decreases Work(pool)
    {
      var c := AnyEvent(pool);
      StepKeeps(pool, c, outcomes);
      StepWorks(pool, c, outcomes);
      pool := Next(pool, c, outcomes);
    }
    gathered := seq(|outcomes|, i requires 0 <= i < |outcomes| => Result(pool, outcomes, i));
  }

  function Result(p: Pool, outcomes: seq<Outcome>, i: nat): (r: Outcome)
    requires Inv(p, outcomes) && p.waiting == {} && p.running == {} && i < |outcomes|
    ensures r == outcomes[i]
  {
    p.results[i]
  }
}
