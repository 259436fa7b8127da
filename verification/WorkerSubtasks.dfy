/** The worker stage of a manager task: subtasks one by one, or their model calls concurrently. */
module WorkerSubtasks {
  import opened Wrappers
  import opened WorkerCalls

  /** A planned subtask, with the agent the workspace has for it and the outcome of its model call. */
  datatype Subtask = Subtask(id: int, agent: Option<string>, outcome: Outcome)

  datatype Error = MissingAgent(subtask: int) | CallFailed(error: string)

  datatype WorkResult = WorkResult(id: int, agent: string, content: string)

  datatype Status = Running | Done | Failed

  datatype Step = Step(subtask: int, status: Status)

  /** Where a failure is attributed: `subtask` gives the step name, `step` the row of the step. */
  datatype Hop = Hop(agent: Option<string>, subtask: Option<int>, step: Option<nat>)

  type Plan = seq<Subtask>

  // ---- What the two ways of running should do

  predicate Missing(s: Subtask) {
    s.agent.None?
  }

  predicate Stops(s: Subtask) {
    s.agent.None? || s.outcome.Raised?
  }

  function FirstMissing(plan: Plan): (k: nat)
    ensures k <= |plan| && (forall i :: 0 <= i < k ==> !Missing(plan[i])) && (k < |plan| ==> Missing(plan[k]))
  {
    if plan == [] || Missing(plan[0]) then 0 else 1 + FirstMissing(plan[1..])
  }

  /** The first subtask without an agent or with a failing call. */
  function FirstStop(plan: Plan): (k: nat)
    ensures k <= |plan| && (forall i :: 0 <= i < k ==> !Stops(plan[i])) && (k < |plan| ==> Stops(plan[k]))
  {
    if plan == [] || Stops(plan[0]) then 0 else 1 + FirstStop(plan[1..])
  }

  function ResultOf(s: Subtask): WorkResult
    requires !Stops(s)
  {
    WorkResult(s.id, s.agent.value, s.outcome.content)
  }

  function ResultsOf(plan: Plan): seq<WorkResult>
    requires forall i :: 0 <= i < |plan| ==> !Stops(plan[i])
  {
    seq(|plan|, i requires 0 <= i < |plan| => ResultOf(plan[i]))
  }

  /** The hop context once subtask `i` of the plan has its step row. */
  function HopAt(plan: Plan, i: nat, rows: nat): Hop
    requires i < |plan|
  {
    Hop(plan[i].agent, Some(plan[i].id), Some(rows + i))
  }

  function HopBefore(plan: Plan, i: nat, rows: nat, hop: Hop): Hop
    requires i <= |plan|
  {
    if i == 0 then hop else HopAt(plan, i - 1, rows)
  }

  function ErrorOf(s: Subtask): Error
    requires Stops(s)
  {
    if s.agent.None? then MissingAgent(s.id) else CallFailed(s.outcome.error)
  }

  /** The lowest subtask that cannot be completed decides: without an agent the hop stays at the one before. */
  function SequentialOutcome(plan: Plan, rows: nat, hop: Hop): (Result<seq<WorkResult>, Error>, Hop) {
    var k := FirstStop(plan);
    if k == |plan| then (Success(ResultsOf(plan)), HopBefore(plan, k, rows, hop))
    else (Failure(ErrorOf(plan[k])), if Missing(plan[k]) then HopBefore(plan, k, rows, hop) else HopAt(plan, k, rows))
  }

  // ---- What is left in the database

  function StepsOf(plan: Plan, n: nat, final: bool): (r: seq<Step>)
    requires n <= |plan|
    ensures |r| == n
  {
    seq(n, i requires 0 <= i < n => StepOf(plan[i], final))
  }

  function StepOf(s: Subtask, final: bool): Step {
    Step(s.id, if !final then Running else if s.outcome.Completed? then Done else Failed)
  }

  /** The result messages of the completed ones among the first `n` subtasks. */
  function MessagesOf(plan: Plan, n: nat): seq<string>
    requires n <= |plan|
  {
    if n == 0 then []
    else if plan[n - 1].outcome.Completed? then MessagesOf(plan, n - 1) + [plan[n - 1].outcome.content]
    else MessagesOf(plan, n - 1)
  }

  /** The results of the completed ones among the first `n` subtasks. */
  function CompletedOf(plan: Plan, n: nat): seq<WorkResult>
    requires n <= |plan|
  {
    if n == 0 then []
    else if Stops(plan[n - 1]) then CompletedOf(plan, n - 1)
    else CompletedOf(plan, n - 1) + [ResultOf(plan[n - 1])]
  }

  lemma {:induction false} AllCompleted(plan: Plan, n: nat)
    requires n <= FirstStop(plan)
    ensures CompletedOf(plan, n) == ResultsOf(plan[..n]) && |MessagesOf(plan, n)| == n
  {
    if n > 0 {
      AllCompleted(plan, n - 1);
      assert plan[..n] == plan[..n - 1] + [plan[n - 1]];
      assert ResultsOf(plan[..n]) == ResultsOf(plan[..n - 1]) + [ResultOf(plan[n - 1])];
    }
  }

  /** The first subtask whose call fails. */
  function FirstRaised(plan: Plan): (k: nat)
    ensures k <= |plan| && (forall i :: 0 <= i < k ==> plan[i].outcome.Completed?)
    ensures k < |plan| ==> plan[k].outcome.Raised?
  {
    if plan == [] || plan[0].outcome.Raised? then 0 else 1 + FirstRaised(plan[1..])
  }

  /** All agents are looked up before the first call, so a missing one decides before any call is made; otherwise all
      calls are made, and the first failure in plan order is raised at the end. */
  function ParallelOutcome(plan: Plan, rows: nat, hop: Hop): (Result<seq<WorkResult>, Error>, Hop) {
    var m, k := FirstMissing(plan), FirstRaised(plan);
    if m < |plan| then (Failure(MissingAgent(plan[m].id)), HopBefore(plan, m, rows, hop))
    else if k < |plan| then (Failure(CallFailed(plan[k].outcome.error)), HopAt(plan, k, rows))
    else (Success(CompletedOf(plan, |plan|)), HopBefore(plan, |plan|, rows, hop))
  }

  lemma StopsWhereRaised(plan: Plan)
    ensures FirstStop(plan) == if FirstMissing(plan) < FirstRaised(plan) then FirstMissing(plan) else FirstRaised(plan)
  {
    var k, m, r := FirstStop(plan), FirstMissing(plan), FirstRaised(plan);
    assert k < |plan| ==> Missing(plan[k]) || plan[k].outcome.Raised?;
    assert m < |plan| ==> Stops(plan[m]);
    assert r < |plan| ==> Stops(plan[r]);
  }

  /** The two ways agree exactly when no call fails before the first subtask without an agent. */
  lemma ParallelAgreesIff(plan: Plan, rows: nat, hop: Hop)
    ensures ParallelOutcome(plan, rows, hop) == SequentialOutcome(plan, rows, hop)
            <==> FirstMissing(plan) == |plan| || FirstMissing(plan) <= FirstRaised(plan)
  {
    StopsWhereRaised(plan);
    AllCompleted(plan, FirstStop(plan));
    assert plan[..|plan|] == plan;
  }

  function Outcomes(plan: Plan): seq<Outcome> {
    seq(|plan|, i requires 0 <= i < |plan| => plan[i].outcome)
  }

  function SequentialSteps(plan: Plan): seq<Step> {
    var k := FirstStop(plan);
    StepsOf(plan, k, true) + if k < |plan| && !Missing(plan[k]) then [StepOf(plan[k], false)] else []
  }

  /** What the two runs tell the user. */
  function SequentialMessages(plan: Plan): seq<string> {
    MessagesOf(plan, FirstStop(plan))
  }

  function ParallelMessages(plan: Plan): seq<string> {
    if FirstMissing(plan) < |plan| then [] else MessagesOf(plan, |plan|)
  }

  function ParallelSteps(plan: Plan): seq<Step> {
    var m := FirstMissing(plan);
    StepsOf(plan, m, m == |plan|)
  }

  /** The step rows when the outcomes of the first `i` subtasks are written down. */
  function Rows(before: seq<Step>, plan: Plan, i: nat): (r: seq<Step>)
    requires i <= |plan|
    ensures |r| == |before| + |plan|
  {
    before + StepsOf(plan, i, true) + StepsOf(plan, |plan|, false)[i..]
  }

  lemma CloseRow(before: seq<Step>, plan: Plan, i: nat)
    requires i < |plan|
    ensures Rows(before, plan, i)[|before| + i := StepOf(plan[i], true)] == Rows(before, plan, i + 1)
  {
  }

  class WorkerStage {
    var hop: Hop
    var steps: seq<Step>
    var messages: seq<string>

    constructor ()
      ensures hop == Hop(None, None, None) && steps == [] && messages == []
    {
      hop, steps, messages := Hop(None, None, None), [], [];
    }

    /** One subtask of the sequential run: without an agent nothing changes, and a failing call leaves its step open. */
    method RunOne(s: Subtask) returns (r: Result<WorkResult, Error>)
      modifies this
      ensures r == if Stops(s) then Failure(ErrorOf(s)) else Success(ResultOf(s))
      ensures hop == if Missing(s) then old(hop) else Hop(s.agent, Some(s.id), Some(|old(steps)|))
      ensures steps == old(steps) + if Missing(s) then [] else [StepOf(s, !Stops(s))]
      ensures messages == old(messages) + if Stops(s) then [] else [s.outcome.content]
    {
      if s.agent.None? {
        return Failure(MissingAgent(s.id));
      }
      hop := Hop(s.agent, Some(s.id), None);
      steps := steps + [Step(s.id, Running)];
      hop := hop.(step := Some(|steps| - 1));
      if s.outcome.Raised? {
        return Failure(CallFailed(s.outcome.error));
      }
      steps := steps[|steps| - 1 := Step(s.id, Done)];
      messages := messages + [s.outcome.content];
      r := Success(WorkResult(s.id, s.agent.value, s.outcome.content));
    }

    method RunSequential(plan: Plan) returns (r: Result<seq<WorkResult>, Error>)
      modifies this
      ensures (r, hop) == SequentialOutcome(plan, |old(steps)|, old(hop))
      ensures steps == old(steps) + SequentialSteps(plan)
      ensures messages == old(messages) + SequentialMessages(plan)
    {
      var results: seq<WorkResult> := [];
      for i := 0 to |plan|
        invariant i <= FirstStop(plan) && hop == HopBefore(plan, i, |old(steps)|, old(hop))
        invariant steps == old(steps) + StepsOf(plan, i, true)
        invariant messages == old(messages) + MessagesOf(plan, i)
        invariant results == CompletedOf(plan, i)
      {
        var result := RunOne(plan[i]);
        if result.Failure? {
          return Failure(result.error);
        }
        results := results + [result.value];
        assert StepsOf(plan, i + 1, true) == StepsOf(plan, i, true) + [StepOf(plan[i], true)];
      }
      AllCompleted(plan, |plan|);
      assert plan[..|plan|] == plan;
      r := Success(results);
    }

    /** Looks up every agent and opens every step before the first call. */
    method Prepare(plan: Plan) returns (missing: Option<int>)
      modifies this`hop, this`steps
      ensures var m := FirstMissing(plan);
              && missing == (if m < |plan| then Some(plan[m].id) else None)
              && hop == HopBefore(plan, m, |old(steps)|, old(hop))
              && steps == old(steps) + StepsOf(plan, m, false)
    {
      for i := 0 to |plan|
        invariant i <= FirstMissing(plan) && hop == HopBefore(plan, i, |old(steps)|, old(hop))
        invariant steps == old(steps) + StepsOf(plan, i, false)
      {
        var s := plan[i];
        if s.agent.None? {
          return Some(s.id);
        }
        hop := Hop(s.agent, Some(s.id), hop.step);
        steps := steps + [Step(s.id, Running)];
        hop := hop.(step := Some(|steps| - 1));
        assert StepsOf(plan, i + 1, false) == StepsOf(plan, i, false) + [Step(s.id, Running)];
      }
      missing := None;
    }

    /** Writes down one outcome; the first error is remembered with its hop. */
    method PersistOne(s: Subtask, outcome: Outcome, row: nat, results0: seq<WorkResult>, error0: Option<string>)
      returns (results: seq<WorkResult>, error: Option<string>)
      requires !Missing(s) && outcome == s.outcome && row < |steps|
      modifies this
      ensures steps == old(steps)[row := StepOf(s, true)]
      ensures messages == old(messages) + if Stops(s) then [] else [s.outcome.content]
      ensures results == results0 + if Stops(s) then [] else [ResultOf(s)]
      ensures error == if Stops(s) && error0.None? then Some(s.outcome.error) else error0
      ensures hop == if Stops(s) && error0.None? then Hop(s.agent, Some(s.id), Some(row)) else old(hop)
    {
      results, error := results0, error0;
      steps := steps[row := StepOf(s, true)];
      match outcome
      case Raised(e) =>
        if error.None? {
          error := Some(e);
          hop := Hop(s.agent, Some(s.id), Some(row));
        }
      case Completed(content) =>
        messages := messages + [content];
        results := results + [ResultOf(s)];
    }

    /** Writes down the outcomes in plan order and remembers the first error. */
    method Persist(plan: Plan, outcomes: seq<Outcome>, rows: nat)
      returns (results: seq<WorkResult>, error: Option<string>)
      requires FirstMissing(plan) == |plan| && outcomes == Outcomes(plan) && |steps| == rows + |plan|
      requires steps[rows..] == StepsOf(plan, |plan|, false)
      modifies this
      ensures results == CompletedOf(plan, |plan|) && messages == old(messages) + MessagesOf(plan, |plan|)
      ensures steps == old(steps)[..rows] + StepsOf(plan, |plan|, true)
      ensures var k := FirstRaised(plan);
              && error == (if k < |plan| then Some(plan[k].outcome.error) else None)
              && hop == (if k < |plan| then HopAt(plan, k, rows) else old(hop))
    {
      results, error := [], None;
      assert steps == Rows(old(steps)[..rows], plan, 0);
      var k := FirstRaised(plan);
      for i := 0 to |plan|
        invariant results == CompletedOf(plan, i) && messages == old(messages) + MessagesOf(plan, i)
        invariant steps == Rows(old(steps)[..rows], plan, i)
        invariant error == (if k < i then Some(plan[k].outcome.error) else None)
        invariant hop == (if k < i then HopAt(plan, k, rows) else old(hop))
      {
        assert !Missing(plan[i]);
        CloseRow(old(steps)[..rows], plan, i);
        results, error := PersistOne(plan[i], outcomes[i], rows + i, results, error);
      }
      assert Rows(old(steps)[..rows], plan, |plan|) == old(steps)[..rows] + StepsOf(plan, |plan|, true);
    }

    method RunParallel(plan: Plan, parallelism: int) returns (r: Result<seq<WorkResult>, Error>)
      modifies this
      ensures (r, hop) == ParallelOutcome(plan, |old(steps)|, old(hop))
      ensures steps == old(steps) + ParallelSteps(plan)
      ensures messages == old(messages) + ParallelMessages(plan)
    {
      var permits := Max(1, parallelism);
      ghost var rows := |steps|;
      var missing := Prepare(plan);
      if missing.Some? {
        return Failure(MissingAgent(missing.value));
      }
      var outcomes, _ := CallAll(Outcomes(plan), permits);
      var results, error := Persist(plan, outcomes, |steps| - |plan|);
      if error.Some? {
        return Failure(CallFailed(error.value));
      }
      r := Success(results);
    }
  }

  /** With all agents present both ways return the same ordered results or raise the error of the lowest failing
      subtask, with the hop naming it. */
  lemma ParallelRefinesSequential(plan: Plan, rows: nat, hop: Hop)
    requires forall i :: 0 <= i < |plan| ==> plan[i].agent.Some?
    ensures ParallelOutcome(plan, rows, hop) == SequentialOutcome(plan, rows, hop)
    ensures var (r, after) := ParallelOutcome(plan, rows, hop);
            if forall i :: 0 <= i < |plan| ==> plan[i].outcome.Completed? then
              && r.Success? && |r.value| == |plan|
              && forall i :: 0 <= i < |plan| ==>
                   r.value[i].id == plan[i].id && r.value[i].content == plan[i].outcome.content
            else
              exists k :: 0 <= k < |plan| && plan[k].outcome.Raised?
                && (forall i :: 0 <= i < k ==> plan[i].outcome.Completed?)
                && r == Failure(CallFailed(plan[k].outcome.error))
                && after == Hop(plan[k].agent, Some(plan[k].id), Some(rows + k))
  {
    ParallelAgreesIff(plan, rows, hop);
    StopsWhereRaised(plan);
    AllCompleted(plan, FirstStop(plan));
    assert plan[..|plan|] == plan;
    var k := FirstRaised(plan);
    assert k < |plan| ==> plan[k].outcome.Raised?;
  }

  lemma {:induction false} MessagesGrow(plan: Plan, n: nat, m: nat)
    requires n <= m <= |plan|
    ensures MessagesOf(plan, n) <= MessagesOf(plan, m)
    decreases m
  {
    if n < m {
      MessagesGrow(plan, n, m - 1);
    }
  }

  /** What the sequential run has told the user when it stops is a prefix of what the parallel run tells if and only if
      all agents are present, or the sequential run has told nothing. */
  lemma SequentialMessagesArePrefixIff(plan: Plan)
    ensures SequentialMessages(plan) <= ParallelMessages(plan)
            <==> FirstMissing(plan) == |plan| || FirstStop(plan) == 0
  {
    AllCompleted(plan, FirstStop(plan));
    MessagesGrow(plan, FirstStop(plan), |plan|);
  }
}
