/** What the two ways of running a worker stage leave behind: step rows, messages, results and the hop. */
module WorkerRecords {
  import opened Wrappers
  import opened WorkerCalls
  import opened WorkerSubtasks

  // The statements are about any final state that meets the contracts of `RunSequential` and `RunParallel`.

  /** The first `k` subtasks have an agent and a call that succeeds, and the next one, if any, has not. */
  ghost predicate StopsAt(plan: Plan, k: nat) {
    && k <= |plan| && (forall i :: 0 <= i < k ==> plan[i].agent.Some? && plan[i].outcome.Completed?)
    && (k < |plan| ==> plan[k].agent.None? || plan[k].outcome.Raised?)
  }

  /** The first `m` subtasks have an agent, and the next one, if any, has none. */
  ghost predicate LacksAgentAt(plan: Plan, m: nat) {
    m <= |plan| && (forall i :: 0 <= i < m ==> plan[i].agent.Some?) && (m < |plan| ==> plan[m].agent.None?)
  }

  /** The first `k` calls succeed, and the next one, if any, fails. */
  ghost predicate RaisesAt(plan: Plan, k: nat) {
    && k <= |plan| && (forall i :: 0 <= i < k ==> plan[i].outcome.Completed?)
    && (k < |plan| ==> plan[k].outcome.Raised?)
  }

  lemma FirstsAreUnique(plan: Plan, k: nat)
    ensures StopsAt(plan, k) <==> k == FirstStop(plan)
    ensures LacksAgentAt(plan, k) <==> k == FirstMissing(plan)
    ensures RaisesAt(plan, k) <==> k == FirstRaised(plan)
  {
    assert StopsAt(plan, FirstStop(plan));
    assert LacksAgentAt(plan, FirstMissing(plan)) && RaisesAt(plan, FirstRaised(plan));
    if k <= |plan| {
      assert k < FirstStop(plan) ==> !Stops(plan[k]);
      assert k < FirstMissing(plan) ==> !Missing(plan[k]);
    }
  }

  /** Sequential: the subtasks before the first that stops are done, the row of a failing call is left running, a
      subtask without an agent has no row, and nothing follows. */
  lemma SequentialRows(plan: Plan, before: seq<Step>, steps: seq<Step>, k: nat)
    requires steps == before + SequentialSteps(plan) && StopsAt(plan, k)
    ensures var rows := |before|;
            && |steps| == rows + k + (if k < |plan| && plan[k].agent.Some? then 1 else 0)
            && steps[..rows] == before
            && (forall i :: 0 <= i < k ==> steps[rows + i] == Step(plan[i].id, Done))
            && (k < |plan| && plan[k].agent.Some? ==> steps[rows + k] == Step(plan[k].id, Running))
  {
    FirstsAreUnique(plan, k);
  }

  /** Parallel: without all agents the rows up to the first missing one are left running; with all agents every subtask
      has its row, done if its call succeeded and failed if it did not. */
  lemma ParallelRows(plan: Plan, before: seq<Step>, steps: seq<Step>, m: nat)
    requires steps == before + ParallelSteps(plan) && LacksAgentAt(plan, m)
    ensures |steps| == |before| + m && steps[..|before|] == before
    ensures forall i :: 0 <= i < m ==>
              var row := steps[|before| + i];
              && row.subtask == plan[i].id
              && (row.status == Running <==> m < |plan|)
              && (row.status == Done <==> m == |plan| && plan[i].outcome.Completed?)
              && (row.status == Failed <==> m == |plan| && plan[i].outcome.Raised?)
  {
    FirstsAreUnique(plan, m);
  }

  /** Sequential: the results stand in plan order, or the error is that of the first subtask that stops; the hop names
      it, or the one before if it has no agent. */
  lemma SequentialResult(plan: Plan, rows: nat, before: Hop, r: Result<seq<WorkResult>, Error>, after: Hop, k: nat)
    requires (r, after) == SequentialOutcome(plan, rows, before) && StopsAt(plan, k)
    ensures k == |plan| ==>
              && r.Success? && |r.value| == |plan|
              && forall i :: 0 <= i < |plan| ==>
                   r.value[i] == WorkResult(plan[i].id, plan[i].agent.value, plan[i].outcome.content)
    ensures k < |plan| ==>
              r == Failure(if plan[k].agent.None? then MissingAgent(plan[k].id) else CallFailed(plan[k].outcome.error))
    ensures after == if k < |plan| && plan[k].agent.Some? then Hop(plan[k].agent, Some(plan[k].id), Some(rows + k))
                     else if k > 0 then Hop(plan[k - 1].agent, Some(plan[k - 1].id), Some(rows + k - 1))
                     else before
  {
    FirstsAreUnique(plan, k);
  }

  /** Parallel: a missing agent decides first, then the first failing call, and the hop names it. */
  lemma ParallelResult(plan: Plan, rows: nat, before: Hop, r: Result<seq<WorkResult>, Error>, after: Hop, m: nat,
                       k: nat)
    requires (r, after) == ParallelOutcome(plan, rows, before) && LacksAgentAt(plan, m) && RaisesAt(plan, k)
    ensures m == |plan| && k == |plan| ==>
              && r.Success? && |r.value| == |plan|
              && forall i :: 0 <= i < |plan| ==>
                   r.value[i] == WorkResult(plan[i].id, plan[i].agent.value, plan[i].outcome.content)
    ensures m < |plan| ==> r == Failure(MissingAgent(plan[m].id))
    ensures m == |plan| && k < |plan| ==> r == Failure(CallFailed(plan[k].outcome.error))
    ensures after == if m == |plan| && k < |plan| then Hop(plan[k].agent, Some(plan[k].id), Some(rows + k))
                     else if m > 0 then Hop(plan[m - 1].agent, Some(plan[m - 1].id), Some(rows + m - 1))
                     else before
  {
    FirstsAreUnique(plan, m);
    FirstsAreUnique(plan, k);
    if m == |plan| && k == |plan| {
      FirstsAreUnique(plan, |plan|);
      assert FirstStop(plan) == |plan| by {
        StopsWhereRaised(plan);
      }
      AllCompleted(plan, |plan|);
      assert plan[..|plan|] == plan;
    }
  }

  /** The places before `n` whose call succeeds. */
  function CompletedPlaces(plan: Plan, n: nat): set<int>
    requires n <= |plan|
  {
    set i | 0 <= i < n && plan[i].outcome.Completed?
  }

  lemma CompletedStep(plan: Plan, n: nat)
    requires n < |plan|
    ensures |CompletedPlaces(plan, n + 1)|
            == |CompletedPlaces(plan, n)| + if plan[n].outcome.Completed? then 1 else 0
  {
    var before, after := CompletedPlaces(plan, n), CompletedPlaces(plan, n + 1);
    assert after == before + if plan[n].outcome.Completed? then {n as int} else {};
  }

  lemma {:induction false} MessagePlace(plan: Plan, n: nat, i: nat)
    requires i < n <= |plan| && plan[i].outcome.Completed?
    ensures |MessagesOf(plan, n)| == |CompletedPlaces(plan, n)|
    ensures var k := |CompletedPlaces(plan, i)|;
            k < |MessagesOf(plan, n)| && MessagesOf(plan, n)[k] == plan[i].outcome.content
  {
    MessageCount(plan, n - 1);
    CompletedStep(plan, n - 1);
    if i < n - 1 {
      MessagePlace(plan, n - 1, i);
    }
  }

  lemma {:induction false} MessageCount(plan: Plan, n: nat)
    requires n <= |plan|
    ensures |MessagesOf(plan, n)| == |CompletedPlaces(plan, n)|
  {
    if n > 0 {
      MessageCount(plan, n - 1);
      CompletedStep(plan, n - 1);
    }
  }

  /** The user is told the content of every successful call in plan order: by the sequential run up to the first subtask
      that stops, by the parallel run of all of them if all agents are present, and of none otherwise. */
  lemma MessagesTell(plan: Plan, k: nat, m: nat, i: nat)
    requires StopsAt(plan, k) && LacksAgentAt(plan, m) && i < |plan|
    ensures |SequentialMessages(plan)| == k && (i < k ==> SequentialMessages(plan)[i] == plan[i].outcome.content)
    ensures m < |plan| ==> ParallelMessages(plan) == []
    ensures m == |plan| ==>
              && |ParallelMessages(plan)| == |CompletedPlaces(plan, |plan|)|
              && (plan[i].outcome.Completed? ==>
                    var place := |CompletedPlaces(plan, i)|;
                    place < |ParallelMessages(plan)| && ParallelMessages(plan)[place] == plan[i].outcome.content)
  {
    FirstsAreUnique(plan, k);
    FirstsAreUnique(plan, m);
    AllCompleted(plan, k);
    MessageCount(plan, |plan|);
    if i < k {
      MessagePlace(plan, k, i);
      AllPlaces(plan, i);
    }
    if plan[i].outcome.Completed? {
      MessagePlace(plan, |plan|, i);
    }
  }

  lemma {:induction false} AllPlaces(plan: Plan, n: nat)
    requires n <= |plan| && forall i :: 0 <= i < n ==> plan[i].outcome.Completed?
    ensures |CompletedPlaces(plan, n)| == n
  {
    if n > 0 {
      AllPlaces(plan, n - 1);
      CompletedStep(plan, n - 1);
    }
  }
}
