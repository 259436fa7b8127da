/** `execute_dag`: layers in order, the nodes of one layer concurrently.

    What a node does is an `Outcome` per node; starting and finishing are events, and inside a layer they interleave in
    any way in which a node starts before it finishes. */
module DagExecution {
  import opened Wrappers
  import opened DependencyGraph
  import opened StringOrder
  import opened KahnCounting
  import opened WorkflowNodes
  import T = TopologicalSort
  import D = DagTheorems

  datatype Outcome = Produced(output: string) | Raised(message: string)

  datatype Event = Started(node: Node, orderIndex: nat) | Finished(node: Node, orderIndex: nat, ok: bool)

  datatype NodeFailure = NodeFailure(id: string, message: string)

  type Outcomes = Node -> Outcome

  predicate LayerOk(layer: seq<Node>, outcome: Outcomes) {
    forall i :: 0 <= i < |layer| ==> outcome(layer[i]).Produced?
  }

  /** An event of this layer, with the order index of its node and, at the end, the node's outcome. */
  predicate OfLayer(layer: seq<Node>, base: nat, outcome: Outcomes, e: Event) {
    && base <= e.orderIndex < base + |layer| && e.node == layer[e.orderIndex - base]
    && (e.Finished? ==> e.ok == outcome(e.node).Produced?)
  }

  /** One `asyncio.gather`: every node of the layer starts once and finishes once, later, and nothing else happens. */
  ghost predicate IsGather(layer: seq<Node>, base: nat, outcome: Outcomes, events: seq<Event>) {
    && Distinct(events)
    && (forall e :: e in events ==> OfLayer(layer, base, outcome, e))
    && forall i :: 0 <= i < |layer| ==> HasFinished(layer[i], base + i, outcome, events)
  }

  function Offset(layers: seq<seq<Node>>, k: nat): nat
    requires k <= |layers|
  {
    if k == 0 then 0 else Offset(layers, k - 1) + |layers[k - 1]|
  }

  /** Layer `k` happens between `cuts[k]` and `cuts[k + 1]`. */
  ghost predicate Segment(layers: seq<seq<Node>>, outcome: Outcomes, cuts: seq<nat>, trace: seq<Event>, k: nat)
    requires k < |layers| && k + 1 < |cuts|
  {
    && cuts[k] <= cuts[k + 1] <= |trace|
    && IsGather(layers[k], Offset(layers, k), outcome, trace[cuts[k]..cuts[k + 1]])
  }

  /** The run of the first `|cuts| - 1` layers, of which only the last may contain a failure. */
  ghost predicate IsExecution(layers: seq<seq<Node>>, outcome: Outcomes, cuts: seq<nat>, trace: seq<Event>) {
    && 0 < |cuts| <= |layers| + 1 && cuts[0] == 0 && cuts[|cuts| - 1] == |trace|
    && (forall k :: 0 <= k < |cuts| - 1 ==> Segment(layers, outcome, cuts, trace, k))
    && (forall k :: 0 <= k < |cuts| - 2 ==> LayerOk(layers[k], outcome))
  }

  /** The state of one gather: `next` nodes have started, those in `running` have not finished. */
  ghost predicate Gathering(layer: seq<Node>, base: nat, outcome: Outcomes, events: seq<Event>, next: nat,
                            running: set<nat>)
  {
    && next <= |layer| && (forall i :: i in running ==> i < next)
    && |events| + |running| == 2 * next
    && Expected(layer, base, outcome, events, next, running)
    && Complete(layer, base, outcome, events, next, running)
  }

  /** Nothing has happened twice or too early. */
  ghost predicate Expected(layer: seq<Node>, base: nat, outcome: Outcomes, events: seq<Event>, next: nat,
                           running: set<nat>)
  {
    && Distinct(events)
    && (forall e :: e in events ==> OfLayer(layer, base, outcome, e) && e.orderIndex < base + next)
    && (forall e :: e in events && e.Finished? ==> e.orderIndex - base !in running)
  }

  /** Every node that should have started or finished has. */
  ghost predicate Complete(layer: seq<Node>, base: nat, outcome: Outcomes, events: seq<Event>, next: nat,
                           running: set<nat>)
    requires next <= |layer|
  {
    && (forall i :: 0 <= i < next ==> HasStarted(layer[i], base + i, events))
    && (forall i :: 0 <= i < next && i !in running ==> HasFinished(layer[i], base + i, outcome, events))
  }

  ghost predicate HasStarted(n: Node, index: nat, events: seq<Event>) {
    exists p :: 0 <= p < |events| && events[p] == Started(n, index)
  }

  ghost predicate HasFinished(n: Node, index: nat, outcome: Outcomes, events: seq<Event>) {
    exists p, q :: 0 <= p < q < |events| && events[p] == Started(n, index)
                   && events[q] == Finished(n, index, outcome(n).Produced?)
  }

  lemma MoreEvents(n: Node, index: nat, outcome: Outcomes, events: seq<Event>, e: Event)
    ensures HasStarted(n, index, events) ==> HasStarted(n, index, events + [e])
    ensures HasFinished(n, index, outcome, events) ==> HasFinished(n, index, outcome, events + [e])
    ensures HasStarted(n, index, events) && e == Finished(n, index, outcome(n).Produced?) ==>
              HasFinished(n, index, outcome, events + [e])
    ensures e == Started(n, index) ==> HasStarted(n, index, events + [e])
  {
    var after := events + [e];
    if HasStarted(n, index, events) {
      var p :| 0 <= p < |events| && events[p] == Started(n, index);
      assert after[p] == Started(n, index);
      if e == Finished(n, index, outcome(n).Produced?) {
        assert after[|events|] == e;
      }
    }
    if HasFinished(n, index, outcome, events) {
      var p, q :| 0 <= p < q < |events| && events[p] == Started(n, index)
                  && events[q] == Finished(n, index, outcome(n).Produced?);
      assert after[p] == events[p] && after[q] == events[q];
    }
    assert after[|events|] == e;
  }

  lemma StartExpected(layer: seq<Node>, base: nat, outcome: Outcomes, events: seq<Event>, next: nat,
                      running: set<nat>)
    requires next < |layer| && Expected(layer, base, outcome, events, next, running)
    ensures Expected(layer, base, outcome, events + [Started(layer[next], base + next)], next + 1, running + {next})
  {
  }

  lemma StartCompletes(layer: seq<Node>, base: nat, outcome: Outcomes, events: seq<Event>, next: nat,
                       running: set<nat>)
    requires next < |layer| && Complete(layer, base, outcome, events, next, running)
    ensures Complete(layer, base, outcome, events + [Started(layer[next], base + next)], next + 1, running + {next})
  {
    forall i | 0 <= i <= next {
      MoreEvents(layer[i], base + i, outcome, events, Started(layer[next], base + next));
    }
  }

  lemma StartStep(layer: seq<Node>, base: nat, outcome: Outcomes, events: seq<Event>, next: nat, running: set<nat>)
    requires Gathering(layer, base, outcome, events, next, running) && next < |layer|
    ensures Gathering(layer, base, outcome, events + [Started(layer[next], base + next)], next + 1, running + {next})
  {
    StartExpected(layer, base, outcome, events, next, running);
    StartCompletes(layer, base, outcome, events, next, running);
  }

  lemma FinishStep(layer: seq<Node>, base: nat, outcome: Outcomes, events: seq<Event>, next: nat, running: set<nat>,
                   done: nat)
    requires Gathering(layer, base, outcome, events, next, running) && done in running
    ensures var e := Finished(layer[done], base + done, outcome(layer[done]).Produced?);
            Gathering(layer, base, outcome, events + [e], next, running - {done})
  {
    FinishExpected(layer, base, outcome, events, next, running, done);
    FinishCompletes(layer, base, outcome, events, next, running, done);
  }

  lemma FinishExpected(layer: seq<Node>, base: nat, outcome: Outcomes, events: seq<Event>, next: nat,
                       running: set<nat>, done: nat)
    requires next <= |layer| && done < next && done in running
    requires Expected(layer, base, outcome, events, next, running)
    ensures var e := Finished(layer[done], base + done, outcome(layer[done]).Produced?);
            Expected(layer, base, outcome, events + [e], next, running - {done})
  {
    assert Finished(layer[done], base + done, outcome(layer[done]).Produced?) !in events;
  }

  lemma FinishCompletes(layer: seq<Node>, base: nat, outcome: Outcomes, events: seq<Event>, next: nat,
                        running: set<nat>, done: nat)
    requires next <= |layer| && done < next && Complete(layer, base, outcome, events, next, running)
    ensures var e := Finished(layer[done], base + done, outcome(layer[done]).Produced?);
            Complete(layer, base, outcome, events + [e], next, running - {done})
  {
    var e := Finished(layer[done], base + done, outcome(layer[done]).Produced?);
    forall i | 0 <= i < next {
      MoreEvents(layer[i], base + i, outcome, events, e);
    }
  }

  /** `asyncio.gather` over one layer, with any interleaving of its nodes. */
  method Gather(layer: seq<Node>, base: nat, outcome: Outcomes) returns (events: seq<Event>)
    ensures IsGather(layer, base, outcome, events)
  {
    events := [];
    var next: nat := 0;
    var running: set<nat> := {};
    while next < |layer| || running != {}
      invariant Gathering(layer, base, outcome, events, next, running)
      decreases 2 * |layer| - |events|
    {
      var startAnother: bool := *;
      if next < |layer| && (startAnother || running == {}) {
        StartStep(layer, base, outcome, events, next, running);
        events := events + [Started(layer[next], base + next)];
        running := running + {next};
        next := next + 1;
      } else {
        var done: nat :| done in running;
        FinishStep(layer, base, outcome, events, next, running, done);
        events := events + [Finished(layer[done], base + done, outcome(layer[done]).Produced?)];
        running := running - {done};
      }
    }
  }

  // ---- The whole run

  /** The failure `execute_dag` raises for a layer: the first in list order, whatever finished first. */
  function FirstFailure(layer: seq<Node>, outcome: Outcomes): (r: Option<NodeFailure>)
    ensures r.None? <==> LayerOk(layer, outcome)
    ensures r.Some? ==> exists i :: 0 <= i < |layer| && LayerOk(layer[..i], outcome)
                                    && outcome(layer[i]) == Raised(r.value.message) && r.value.id == IdOf(layer[i])
  {
    if layer == [] then None
    else
      var n := |layer| - 1;
      var earlier := FirstFailure(layer[..n], outcome);
      assert layer == layer[..n] + [layer[n]];
      if earlier.Some? then
        var i :| 0 <= i < n && LayerOk(layer[..n][..i], outcome)
                 && outcome(layer[..n][i]) == Raised(earlier.value.message) && earlier.value.id == IdOf(layer[..n][i]);
        assert layer[..n][..i] == layer[..i];
        earlier
      else if outcome(layer[n]).Raised? then
        assert LayerOk(layer[..n], outcome);
        Some(NodeFailure(IdOf(layer[n]), outcome(layer[n]).message))
      else None
  }

  /** One more result of the layer is looked at. */
  lemma CollectOne(layer: seq<Node>, outcome: Outcomes, i: nat)
    requires i < |layer| && FirstFailure(layer[..i], outcome).None?
    ensures var result := outcome(layer[i]);
            if result.Raised? then FirstFailure(layer, outcome) == Some(NodeFailure(IdOf(layer[i]), result.message))
            else && FirstFailure(layer[..i + 1], outcome).None?
                 && OutputsOf(layer[..i + 1], outcome)
                    == OutputsOf(layer[..i], outcome)[IdOf(layer[i]) := result.output]
  {
    assert layer[..i + 1][..i] == layer[..i];
    if outcome(layer[i]).Raised? {
      FailureOfPrefix(layer, i + 1, outcome);
    }
  }

  lemma MergeOneMore(a: map<string, string>, b: map<string, string>, id: string, output: string)
    ensures (a + b)[id := output] == a + b[id := output]
  {
  }

  method CollectLayer(layer: seq<Node>, outcome: Outcomes, outputs0: map<string, string>)
    returns (r: Result<map<string, string>, NodeFailure>)
    ensures FirstFailure(layer, outcome).Some? ==> r == Failure(FirstFailure(layer, outcome).value)
    ensures FirstFailure(layer, outcome).None? ==> r.Success? && r.value == outputs0 + OutputsOf(layer, outcome)
  {
    var outputs := outputs0;
    for i := 0 to |layer|
      invariant FirstFailure(layer[..i], outcome).None?
      invariant outputs == outputs0 + OutputsOf(layer[..i], outcome)
    {
      CollectOne(layer, outcome, i);
      match outcome(layer[i]) {
        case Raised(message) =>
          return Failure(NodeFailure(IdOf(layer[i]), message));
        case Produced(output) =>
          MergeOneMore(outputs0, OutputsOf(layer[..i], outcome), IdOf(layer[i]), output);
          outputs := outputs[IdOf(layer[i]) := output];
      }
    }
    assert layer[..|layer|] == layer;
    r := Success(outputs);
  }

  ghost function OutputsOf(layer: seq<Node>, outcome: Outcomes): map<string, string> {
    if layer == [] then map[]
    else
      var n := |layer| - 1;
      match outcome(layer[n])
      case Produced(output) => OutputsOf(layer[..n], outcome)[IdOf(layer[n]) := output]
      case Raised(_) => OutputsOf(layer[..n], outcome)
  }

  lemma {:induction false} FailureOfPrefix(layer: seq<Node>, n: nat, outcome: Outcomes)
    requires n <= |layer| && FirstFailure(layer[..n], outcome).Some?
    ensures FirstFailure(layer, outcome) == FirstFailure(layer[..n], outcome)
    decreases |layer|
  {
    if n < |layer| {
      assert layer[..|layer| - 1][..n] == layer[..n];
      FailureOfPrefix(layer[..|layer| - 1], n, outcome);
    } else {
      assert layer[..n] == layer;
    }
  }

  lemma SegmentStays(layers: seq<seq<Node>>, outcome: Outcomes, cuts: seq<nat>, trace: seq<Event>,
                     events: seq<Event>, k: nat)
    requires k < |layers| && k + 1 < |cuts| && Segment(layers, outcome, cuts, trace, k)
    ensures Segment(layers, outcome, cuts + [|trace| + |events|], trace + events, k)
  {
    assert (trace + events)[cuts[k]..cuts[k + 1]] == trace[cuts[k]..cuts[k + 1]];
  }

  lemma NewSegment(layers: seq<seq<Node>>, outcome: Outcomes, cuts: seq<nat>, trace: seq<Event>, events: seq<Event>)
    requires 0 < |cuts| <= |layers| && cuts[|cuts| - 1] == |trace|
    requires IsGather(layers[|cuts| - 1], Offset(layers, |cuts| - 1), outcome, events)
    ensures Segment(layers, outcome, cuts + [|trace| + |events|], trace + events, |cuts| - 1)
  {
    var cuts', trace' := cuts + [|trace| + |events|], trace + events;
    assert cuts'[|cuts| - 1] == |trace| && cuts'[|cuts|] == |trace'|;
    assert trace'[|trace|..|trace'|] == events;
  }

  lemma LongerTrace(layers: seq<seq<Node>>, outcome: Outcomes, cuts: seq<nat>, trace: seq<Event>, events: seq<Event>)
    requires IsExecution(layers, outcome, cuts, trace) && |cuts| - 1 < |layers|
    requires |cuts| > 1 ==> LayerOk(layers[|cuts| - 2], outcome)
    requires IsGather(layers[|cuts| - 1], Offset(layers, |cuts| - 1), outcome, events)
    ensures IsExecution(layers, outcome, cuts + [|trace| + |events|], trace + events)
  {
    var cuts', trace' := cuts + [|trace| + |events|], trace + events;
    NewSegment(layers, outcome, cuts, trace, events);
    forall k | 0 <= k < |cuts| - 1
      ensures Segment(layers, outcome, cuts', trace', k)
    {
      SegmentStays(layers, outcome, cuts, trace, events, k);
    }
  }

  /** The first `k` layers have run without a failure. */
  ghost predicate LayersDone(layers: seq<seq<Node>>, outcome: Outcomes, k: nat, outputs: map<string, string>,
                             trace: seq<Event>, cuts: seq<nat>)
    requires k <= |layers|
  {
    && |cuts| == k + 1 && IsExecution(layers, outcome, cuts, trace)
    && (forall j :: 0 <= j < k ==> LayerOk(layers[j], outcome))
    && outputs == AllOutputs(layers[..k], outcome)
  }

  lemma LayerDone(layers: seq<seq<Node>>, outcome: Outcomes, k: nat, outputs: map<string, string>, trace: seq<Event>,
                  cuts: seq<nat>, events: seq<Event>) returns (trace': seq<Event>, cuts': seq<nat>)
    requires k < |layers| && LayersDone(layers, outcome, k, outputs, trace, cuts)
    requires IsGather(layers[k], Offset(layers, k), outcome, events)
    ensures trace' == trace + events && cuts' == cuts + [|trace| + |events|]
    ensures |cuts'| == k + 2 && IsExecution(layers, outcome, cuts', trace')
    ensures LayerOk(layers[k], outcome) ==>
              LayersDone(layers, outcome, k + 1, outputs + OutputsOf(layers[k], outcome), trace', cuts')
  {
    trace', cuts' := trace + events, cuts + [|trace| + |events|];
    LongerTrace(layers, outcome, cuts, trace, events);
    assert layers[..k + 1][..k] == layers[..k];
  }

  /** Gathers one layer and looks at its results. */
  method RunLayer(layers: seq<seq<Node>>, outcome: Outcomes, k: nat, orderCounter: nat, outputs: map<string, string>,
                  trace0: seq<Event>, ghost cuts0: seq<nat>)
    returns (r: Result<map<string, string>, NodeFailure>, trace: seq<Event>, ghost cuts: seq<nat>)
    requires k < |layers| && orderCounter == Offset(layers, k)
    requires LayersDone(layers, outcome, k, outputs, trace0, cuts0)
    ensures |cuts| == k + 2 && IsExecution(layers, outcome, cuts, trace)
    ensures r.Success? ==> LayersDone(layers, outcome, k + 1, r.value, trace, cuts)
    ensures r.Failure? ==> FirstFailure(layers[k], outcome) == Some(r.error)
  {
    var events := Gather(layers[k], orderCounter, outcome);
    ghost var trace';
    trace', cuts := LayerDone(layers, outcome, k, outputs, trace0, cuts0, events);
    trace := trace0 + events;
    r := CollectLayer(layers[k], outcome, outputs);
  }

  /** Runs the layers in order and stops after the first layer with a failure. `trace` is what happened, `cuts`
      where each started layer begins and ends. */
  method ExecuteDag(layers: seq<seq<Node>>, outcome: Outcomes)
    returns (r: Result<map<string, string>, NodeFailure>, trace: seq<Event>, ghost cuts: seq<nat>)
    ensures IsExecution(layers, outcome, cuts, trace)
    ensures r.Success? ==> |cuts| == |layers| + 1 && forall k :: 0 <= k < |layers| ==> LayerOk(layers[k], outcome)
    ensures r.Success? ==> r.value == AllOutputs(layers, outcome)
    ensures r.Failure? ==> |cuts| >= 2 && FirstFailure(layers[|cuts| - 2], outcome) == Some(r.error)
  {
    var outputs: map<string, string> := map[];
    var orderCounter := 0;
    trace, cuts := [], [0];
    for k := 0 to |layers|
      invariant orderCounter == Offset(layers, k) && LayersDone(layers, outcome, k, outputs, trace, cuts)
    {
      var collected;
      collected, trace, cuts := RunLayer(layers, outcome, k, orderCounter, outputs, trace, cuts);
      if collected.Failure? {
        return Failure(collected.error), trace, cuts;
      }
      orderCounter := orderCounter + |layers[k]|;
      outputs := collected.value;
    }
    assert layers[..|layers|] == layers;
    r := Success(outputs);
  }

  ghost function AllOutputs(layers: seq<seq<Node>>, outcome: Outcomes): map<string, string> {
    if layers == [] then map[]
    else AllOutputs(layers[..|layers| - 1], outcome) + OutputsOf(layers[|layers| - 1], outcome)
  }

  // ---- What every run guarantees

  /** Order indexes are exactly 0 .. n-1: each belongs to one place of one layer, and they increase from layer to
      layer. */
  lemma {:induction false} OffsetGrows(layers: seq<seq<Node>>, j: nat, k: nat)
    requires j <= k <= |layers|
    ensures Offset(layers, j) <= Offset(layers, k)
    ensures j < k ==> Offset(layers, j) + |layers[j]| <= Offset(layers, k)
    decreases k - j
  {
    if j < k {
      OffsetGrows(layers, j + 1, k);
      assert Offset(layers, j + 1) == Offset(layers, j) + |layers[j]|;
    }
  }

  lemma {:induction false} IndexHasPlace(layers: seq<seq<Node>>, n: nat, index: nat) returns (k: nat, i: nat)
    requires n <= |layers| && index < Offset(layers, n)
    ensures k < n && i < |layers[k]| && index == Offset(layers, k) + i
    decreases n
  {
    if Offset(layers, n - 1) <= index {
      return n - 1, index - Offset(layers, n - 1);
    }
    k, i := IndexHasPlace(layers, n - 1, index);
  }

  lemma IndexIsUnique(layers: seq<seq<Node>>, k: nat, i: nat, l: nat, j: nat)
    requires k < |layers| && i < |layers[k]| && l < |layers| && j < |layers[l]|
    requires Offset(layers, k) + i == Offset(layers, l) + j
    ensures k == l && i == j
  {
    if k < l {
      OffsetGrows(layers, k, l);
    } else if l < k {
      OffsetGrows(layers, l, k);
    }
  }

  lemma {:induction false} CutsGrow(layers: seq<seq<Node>>, outcome: Outcomes, cuts: seq<nat>, trace: seq<Event>,
                                    j: nat, k: nat)
    requires IsExecution(layers, outcome, cuts, trace) && j <= k < |cuts|
    ensures cuts[j] <= cuts[k] <= |trace|
    decreases k - j
  {
    if j < |cuts| - 1 {
      assert Segment(layers, outcome, cuts, trace, j);
    }
    if j < k {
      CutsGrow(layers, outcome, cuts, trace, j + 1, k);
    }
  }

  lemma {:induction false} SegmentOf(layers: seq<seq<Node>>, outcome: Outcomes, cuts: seq<nat>, trace: seq<Event>,
                                     n: nat, p: nat)
    returns (k: nat)
    requires IsExecution(layers, outcome, cuts, trace) && n < |cuts| && p < cuts[n]
    ensures k < n && cuts[k] <= p < cuts[k + 1] <= |trace|
    ensures OfLayer(layers[k], Offset(layers, k), outcome, trace[p])
    decreases n
  {
    assert Segment(layers, outcome, cuts, trace, n - 1);
    if cuts[n - 1] <= p {
      k := n - 1;
      assert trace[cuts[k]..cuts[k + 1]][p - cuts[k]] == trace[p];
    } else {
      k := SegmentOf(layers, outcome, cuts, trace, n - 1, p);
    }
  }

  /** The events of the node at place `i` of layer `k`. */
  lemma EventsOfPlace(layers: seq<seq<Node>>, outcome: Outcomes, cuts: seq<nat>, trace: seq<Event>, k: nat, i: nat)
    returns (p: nat, q: nat)
    requires IsExecution(layers, outcome, cuts, trace) && k < |cuts| - 1 && i < |layers[k]|
    ensures cuts[k] <= p < q < cuts[k + 1] <= |trace|
    ensures trace[p] == Started(layers[k][i], Offset(layers, k) + i)
    ensures trace[q] == Finished(layers[k][i], Offset(layers, k) + i, outcome(layers[k][i]).Produced?)
  {
    assert Segment(layers, outcome, cuts, trace, k);
    var n, index := layers[k][i], Offset(layers, k) + i;
    var events := trace[cuts[k]..cuts[k + 1]];
    assert HasFinished(n, index, outcome, events);
    var a, b :| 0 <= a < b < |events| && events[a] == Started(n, index)
                && events[b] == Finished(n, index, outcome(n).Produced?);
    p, q := cuts[k] + a, cuts[k] + b;
  }

  lemma PlaceOf(nodes: seq<Node>, layers: seq<seq<Node>>, j: nat, d: string) returns (i: nat)
    requires Accepted(nodes) && T.LayersOk(nodes, layers) && j < |layers|
    requires d in Layer(GraphOfNodes(nodes), j)
    ensures i < |layers[j]| && IdOf(layers[j][i]) == d
  {
    assert T.IsLayer(nodes, j, layers[j]);
    assert d in Members(T.Ids(layers[j]));
    i :| 0 <= i < |T.Ids(layers[j])| && T.Ids(layers[j])[i] == d;
  }

  /** Where the dependency of a node in layer `k` stands. */
  lemma DependencyPlace(nodes: seq<Node>, layers: seq<seq<Node>>, k: nat, n: Node, d: string) returns (j: nat, i: nat)
    requires Accepted(nodes) && T.IsLayering(nodes, layers) && k < |layers| && n in layers[k] && n in nodes
    requires d in Declared(n).names
    ensures j < k && i < |layers[j]| && IdOf(layers[j][i]) == d
  {
    var g := GraphOfNodes(nodes);
    NodeOfIsTheNode(nodes, n);
    D.MemberOfLayer(nodes, layers, k, n);
    assert d in DepNames(nodes, n.id.text) && d in g[n.id.text];
    j := FirstRound(g, d, k);
    i := PlaceOf(nodes, layers, j, d);
  }

  /** A node of an earlier layer of the run has finished with success, with a smaller index. */
  lemma FinishedBefore(layers: seq<seq<Node>>, outcome: Outcomes, cuts: seq<nat>, trace: seq<Event>, k: nat, j: nat,
                       i: nat) returns (q: nat)
    requires IsExecution(layers, outcome, cuts, trace) && j < k < |cuts| - 1 && i < |layers[j]|
    ensures q < cuts[k] <= |trace| && trace[q] == Finished(layers[j][i], Offset(layers, j) + i, true)
    ensures Offset(layers, j) + i < Offset(layers, k)
  {
    var a;
    a, q := EventsOfPlace(layers, outcome, cuts, trace, j, i);
    assert LayerOk(layers[j], outcome);
    CutsGrow(layers, outcome, cuts, trace, j + 1, k);
    OffsetGrows(layers, j, k);
  }

  /** Composed with the topological sort: a node starts only after each of its dependencies has finished with
      success, and its order index is larger than theirs. */
  lemma StartsAfterItsDependencies(nodes: seq<Node>, layers: seq<seq<Node>>, outcome: Outcomes, cuts: seq<nat>,
                                   trace: seq<Event>, p: nat, d: string) returns (q: nat)
    requires Accepted(nodes) && T.IsLayering(nodes, layers) && IsExecution(layers, outcome, cuts, trace)
    requires p < |trace| && trace[p].Started? && trace[p].node in nodes
    requires d in Declared(trace[p].node).names
    ensures q < p && trace[q].Finished? && trace[q].ok
    ensures IdOf(trace[q].node) == d && trace[q].orderIndex < trace[p].orderIndex
  {
    var k := SegmentOf(layers, outcome, cuts, trace, |cuts| - 1, p);
    var j, i := DependencyPlace(nodes, layers, k, trace[p].node, d);
    q := FinishedBefore(layers, outcome, cuts, trace, k, j, i);
  }

  /** After a failure in layer `k` exactly the nodes of layers 0 .. k were started, each once, whatever the
      interleaving; without one, all nodes were. */
  lemma StartedLayers(layers: seq<seq<Node>>, outcome: Outcomes, cuts: seq<nat>, trace: seq<Event>, k: nat, i: nat)
    requires IsExecution(layers, outcome, cuts, trace) && k < |layers| && i < |layers[k]|
    ensures k < |cuts| - 1 <==> Started(layers[k][i], Offset(layers, k) + i) in trace
    ensures forall p, q :: 0 <= p < q < |trace| && trace[p].Started? && trace[q].Started? ==>
              trace[p].orderIndex != trace[q].orderIndex
  {
    var e := Started(layers[k][i], Offset(layers, k) + i);
    if k < |cuts| - 1 {
      var p, q := EventsOfPlace(layers, outcome, cuts, trace, k, i);
    }
    if e in trace {
      var p :| 0 <= p < |trace| && trace[p] == e;
      var l := SegmentOf(layers, outcome, cuts, trace, |cuts| - 1, p);
      IndexIsUnique(layers, k, i, l, e.orderIndex - Offset(layers, l));
    }
    forall p, q | 0 <= p < q < |trace| && trace[p].Started? && trace[q].Started?
      ensures trace[p].orderIndex != trace[q].orderIndex
    {
      NoSecondStart(layers, outcome, cuts, trace, p, q);
    }
  }

  lemma NoSecondStart(layers: seq<seq<Node>>, outcome: Outcomes, cuts: seq<nat>, trace: seq<Event>, p: nat, q: nat)
    requires IsExecution(layers, outcome, cuts, trace)
    requires p < q < |trace| && trace[p].Started? && trace[q].Started?
    ensures trace[p].orderIndex != trace[q].orderIndex
  {
    var k := SegmentOf(layers, outcome, cuts, trace, |cuts| - 1, p);
    var l := SegmentOf(layers, outcome, cuts, trace, |cuts| - 1, q);
    var i, j := trace[p].orderIndex - Offset(layers, k), trace[q].orderIndex - Offset(layers, l);
    if trace[p].orderIndex == trace[q].orderIndex {
      IndexIsUnique(layers, k, i, l, j);
      SameSegment(layers, outcome, cuts, trace, k, p, q);
    }
  }

  lemma SameSegment(layers: seq<seq<Node>>, outcome: Outcomes, cuts: seq<nat>, trace: seq<Event>, k: nat, p: nat,
                    q: nat)
    requires IsExecution(layers, outcome, cuts, trace) && k < |cuts| - 1
    requires cuts[k] <= p < q < cuts[k + 1] <= |trace|
    ensures trace[p] != trace[q]
  {
    assert Segment(layers, outcome, cuts, trace, k);
    var events := trace[cuts[k]..cuts[k + 1]];
    assert events[p - cuts[k]] == trace[p] && events[q - cuts[k]] == trace[q];
  }

  // ---- What a successful run returns

  ghost predicate UniqueIds(layers: seq<seq<Node>>) {
    forall k, i, l, j | 0 <= k < |layers| && 0 <= i < |layers[k]| && 0 <= l < |layers| && 0 <= j < |layers[l]| ::
      IdOf(layers[k][i]) == IdOf(layers[l][j]) ==> k == l && i == j
  }

  lemma LayeringHasUniqueIds(nodes: seq<Node>, layers: seq<seq<Node>>)
    requires Accepted(nodes) && T.LayersOk(nodes, layers)
    ensures UniqueIds(layers)
  {
    forall k: nat, i: nat, l: nat, j: nat |
      k < |layers| && i < |layers[k]| && l < |layers| && j < |layers[l]| && IdOf(layers[k][i]) == IdOf(layers[l][j])
      ensures k == l && i == j
    {
      var a, b := T.Ids(layers[k]), T.Ids(layers[l]);
      assert T.IsLayer(nodes, k, layers[k]) && T.IsLayer(nodes, l, layers[l]);
      assert a[i] in Members(a) && b[j] in Members(b);
      LayersAreDisjoint(GraphOfNodes(nodes), a[i], k, l);
      assert a[i] == b[j];
    }
  }

  lemma {:induction false} LayerOutputs(layer: seq<Node>, outcome: Outcomes, n: nat)
    requires n <= |layer| && LayerOk(layer, outcome) && Distinct(T.Ids(layer))
    ensures var outputs := OutputsOf(layer[..n], outcome);
            && (forall id :: id in outputs <==> exists i :: 0 <= i < n && IdOf(layer[i]) == id)
            && forall i :: 0 <= i < n ==> Produced(outputs[IdOf(layer[i])]) == outcome(layer[i])
  {
    if n > 0 {
      LayerOutputs(layer, outcome, n - 1);
      assert layer[..n][..n - 1] == layer[..n - 1];
      assert outcome(layer[n - 1]).Produced?;
      forall i | 0 <= i < n - 1
        ensures IdOf(layer[i]) != IdOf(layer[n - 1])
      {
        assert T.Ids(layer)[i] != T.Ids(layer)[n - 1];
      }
    }
  }

  lemma {:induction false} RunOutputs(layers: seq<seq<Node>>, outcome: Outcomes, n: nat, k: nat, i: nat)
    requires k < n <= |layers| && i < |layers[k]| && UniqueIds(layers)
    requires forall l :: 0 <= l < |layers| ==> LayerOk(layers[l], outcome) && Distinct(T.Ids(layers[l]))
    ensures IdOf(layers[k][i]) in AllOutputs(layers[..n], outcome)
    ensures Produced(AllOutputs(layers[..n], outcome)[IdOf(layers[k][i])]) == outcome(layers[k][i])
  {
    var last := layers[n - 1];
    assert layers[..n][..n - 1] == layers[..n - 1] && last[..|last|] == last;
    LayerOutputs(last, outcome, |last|);
    if k < n - 1 {
      RunOutputs(layers, outcome, n - 1, k, i);
      assert IdOf(layers[k][i]) !in OutputsOf(last, outcome);
    }
  }

  /** A successful run of a layering returns the output of every node under its id. */
  lemma EveryOutputIsReturned(nodes: seq<Node>, layers: seq<seq<Node>>, outcome: Outcomes, k: nat, i: nat)
    requires Accepted(nodes) && T.LayersOk(nodes, layers) && k < |layers| && i < |layers[k]|
    requires forall l :: 0 <= l < |layers| ==> LayerOk(layers[l], outcome)
    ensures var outputs := AllOutputs(layers, outcome);
            && IdOf(layers[k][i]) in outputs
            && Produced(outputs[IdOf(layers[k][i])]) == outcome(layers[k][i])
  {
    LayeringHasUniqueIds(nodes, layers);
    forall l | 0 <= l < |layers|
      ensures Distinct(T.Ids(layers[l]))
    {
      assert T.IsLayer(nodes, l, layers[l]);
    }
    assert layers[..|layers|] == layers;
    RunOutputs(layers, outcome, |layers|, k, i);
  }
}
