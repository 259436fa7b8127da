/** `topological_sort`: validation, then Kahn's algorithm layer by layer.

    Dependencies are lists in which repetitions count, so a node's count goes down once for every repetition, and the
    ids of a layer ascend. */
module TopologicalSort {
  import opened Wrappers
  import opened DependencyGraph
  import opened StringOrder
  import opened KahnCounting
  import opened WorkflowNodes

  datatype DagError =
    | MissingId
    | DuplicateId(id: string)
    | MalformedDependencies(id: string)
    | UnknownDependency(id: string, dependency: string)
    | CyclicDependency(ids: seq<string>)

  // ---- Validation

  /** The error of the first node, in list order, with no id or with the id of an earlier node. */
  ghost function IdError(nodes: seq<Node>): Option<DagError> {
    if nodes == [] then None
    else
      var n := |nodes| - 1;
      var earlier := IdError(nodes[..n]);
      if earlier.Some? then earlier
      else if !HasId(nodes[n]) then Some(MissingId)
      else if nodes[n].id.text in IdSet(nodes[..n]) then Some(DuplicateId(nodes[n].id.text))
      else None
  }

  /** The first dependency, in list order, on an id that is not in the list. */
  ghost function FirstUnknown(id: string, names: seq<string>, ids: set<string>): Option<DagError> {
    if names == [] then None
    else
      var n := |names| - 1;
      var earlier := FirstUnknown(id, names[..n], ids);
      if earlier.Some? then earlier
      else if names[n] !in ids then Some(UnknownDependency(id, names[n]))
      else None
  }

  ghost function NodeDepError(n: Node, ids: set<string>): Option<DagError>
    requires HasId(n)
  {
    if Declared(n).Names? then FirstUnknown(n.id.text, Declared(n).names, ids)
    else Some(MalformedDependencies(n.id.text))
  }

  ghost function DepError(nodes: seq<Node>, ids: set<string>): Option<DagError>
    requires forall i :: 0 <= i < |nodes| ==> HasId(nodes[i])
  {
    if nodes == [] then None
    else
      var n := |nodes| - 1;
      assert HasId(nodes[n]);
      var earlier := DepError(nodes[..n], ids);
      if earlier.Some? then earlier
      else NodeDepError(nodes[n], ids)
  }

  lemma {:induction false} IdErrorMeansBadIds(nodes: seq<Node>)
    ensures IdError(nodes).None? <==> IdsOk(nodes)
  {
    if nodes != [] {
      var n := |nodes| - 1;
      IdErrorMeansBadIds(nodes[..n]);
      assert nodes == nodes[..n] + [nodes[n]];
      if IdsOk(nodes) {
        assert IdsOk(nodes[..n]);
      }
    }
  }

  lemma {:induction false} FirstUnknownMeansUnknown(id: string, names: seq<string>, ids: set<string>)
    ensures FirstUnknown(id, names, ids).None? <==> forall d :: d in names ==> d in ids
  {
    if names != [] {
      FirstUnknownMeansUnknown(id, names[..|names| - 1], ids);
      assert names == names[..|names| - 1] + [names[|names| - 1]];
    }
  }

  lemma {:induction false} DepErrorMeansBadDeps(nodes: seq<Node>, ids: set<string>)
    requires forall i :: 0 <= i < |nodes| ==> HasId(nodes[i])
    ensures DepError(nodes, ids).None? <==>
              forall i :: 0 <= i < |nodes| ==>
                Declared(nodes[i]).Names? && forall d :: d in Declared(nodes[i]).names ==> d in ids
  {
    if nodes != [] {
      var n := |nodes| - 1;
      DepErrorMeansBadDeps(nodes[..n], ids);
      assert nodes == nodes[..n] + [nodes[n]];
      if Declared(nodes[n]).Names? {
        FirstUnknownMeansUnknown(nodes[n].id.text, Declared(nodes[n]).names, ids);
      }
    }
  }

  lemma IdErrorStep(nodes: seq<Node>, i: nat)
    requires i < |nodes| && IdError(nodes[..i]).None?
    ensures IdError(nodes[..i + 1]) ==
            if !HasId(nodes[i]) then Some(MissingId)
            else if nodes[i].id.text in IdSet(nodes[..i]) then Some(DuplicateId(nodes[i].id.text)) else None
    ensures IdError(nodes[..i + 1]).Some? ==> IdError(nodes) == IdError(nodes[..i + 1])
  {
    assert nodes[..i + 1][..i] == nodes[..i];
    if IdError(nodes[..i + 1]).Some? {
      ErrorOfPrefix(nodes, i + 1);
    }
  }

  lemma IdSetStep(nodes: seq<Node>, i: nat)
    requires i < |nodes| && HasId(nodes[i])
    ensures IdSet(nodes[..i + 1]) == IdSet(nodes[..i]) + {nodes[i].id.text}
  {
    assert nodes[..i + 1] == nodes[..i] + [nodes[i]];
  }

  method BuildNodeMap(nodes: seq<Node>) returns (r: Result<map<string, Node>, DagError>)
    ensures IdError(nodes).Some? ==> r == Failure(IdError(nodes).value)
    ensures IdError(nodes).None? ==>
              r.Success? && r.value.Keys == IdSet(nodes) && forall v :: v in r.value ==> r.value[v] == NodeOf(nodes, v)
  {
    var nodeMap: map<string, Node> := map[];
    for i := 0 to |nodes|
      invariant IdError(nodes[..i]).None?
      invariant nodeMap.Keys == IdSet(nodes[..i])
      invariant forall v :: v in nodeMap ==> nodeMap[v] in nodes && nodeMap[v].id == Text(v)
    {
      var node := nodes[i];
      IdErrorStep(nodes, i);
      if !node.id.Text? || node.id.text == "" {
        return Failure(MissingId);
      }
      if node.id.text in nodeMap {
        return Failure(DuplicateId(node.id.text));
      }
      IdSetStep(nodes, i);
      nodeMap := nodeMap[node.id.text := node];
    }
    assert nodes[..|nodes|] == nodes;
    NodeMapIsExact(nodes, nodeMap);
    r := Success(nodeMap);
  }

  lemma NodeMapIsExact(nodes: seq<Node>, nodeMap: map<string, Node>)
    requires IdError(nodes).None? && nodeMap.Keys == IdSet(nodes)
    requires forall v :: v in nodeMap ==> nodeMap[v] in nodes && nodeMap[v].id == Text(v)
    ensures forall v :: v in nodeMap ==> nodeMap[v] == NodeOf(nodes, v)
  {
    IdErrorMeansBadIds(nodes);
    forall v | v in nodeMap
      ensures nodeMap[v] == NodeOf(nodes, v)
    {
      NodeOfIsTheNode(nodes, nodeMap[v]);
    }
  }

  lemma {:induction false} ErrorOfPrefix(nodes: seq<Node>, n: nat)
    requires n <= |nodes| && IdError(nodes[..n]).Some?
    ensures IdError(nodes) == IdError(nodes[..n])
    decreases |nodes|
  {
    if n < |nodes| {
      assert nodes[..|nodes| - 1][..n] == nodes[..n];
      ErrorOfPrefix(nodes[..|nodes| - 1], n);
    } else {
      assert nodes[..n] == nodes;
    }
  }

  // ---- The dependents table

  /** Appends `id` to the dependents of each of its dependencies, once per occurrence. */
  method AddDependents(id: string, names: seq<string>, nodeMap: map<string, Node>, dependents: map<string, seq<string>>)
    returns (r: Result<map<string, seq<string>>, DagError>)
    ensures FirstUnknown(id, names, nodeMap.Keys).Some? ==> r == Failure(FirstUnknown(id, names, nodeMap.Keys).value)
    ensures FirstUnknown(id, names, nodeMap.Keys).None? ==>
              && r.Success?
              && Extended(dependents, r.value, id, names)
  {
    var table := dependents;
    for j := 0 to |names|
      invariant FirstUnknown(id, names[..j], nodeMap.Keys).None?
      invariant Extended(dependents, table, id, names[..j])
    {
      var dep := names[j];
      assert names[..j + 1] == names[..j] + [dep] && names[..j + 1][..j] == names[..j];
      if dep !in nodeMap {
        UnknownOfPrefix(id, names, j + 1, nodeMap.Keys);
        return Failure(UnknownDependency(id, dep));
      }
      ExtendOnce(dependents, table, id, names[..j], dep);
      table := Append(table, dep, id);
    }
    assert names[..|names|] == names;
    r := Success(table);
  }

  lemma {:induction false} UnknownOfPrefix(id: string, names: seq<string>, n: nat, ids: set<string>)
    requires n <= |names| && FirstUnknown(id, names[..n], ids).Some?
    ensures FirstUnknown(id, names, ids) == FirstUnknown(id, names[..n], ids)
    decreases |names|
  {
    if n < |names| {
      assert names[..|names| - 1][..n] == names[..n];
      UnknownOfPrefix(id, names[..|names| - 1], n, ids);
    } else {
      assert names[..n] == names;
    }
  }

  lemma {:induction false} DepErrorOfPrefix(nodes: seq<Node>, n: nat, ids: set<string>)
    requires forall i :: 0 <= i < |nodes| ==> HasId(nodes[i])
    requires n <= |nodes| && DepError(nodes[..n], ids).Some?
    ensures DepError(nodes, ids) == DepError(nodes[..n], ids)
    decreases |nodes|
  {
    if n < |nodes| {
      assert nodes[..|nodes| - 1][..n] == nodes[..n];
      DepErrorOfPrefix(nodes[..|nodes| - 1], n, ids);
    } else {
      assert nodes[..n] == nodes;
    }
  }

  /** The three tables after the first `i` nodes. */
  ghost predicate EdgesBuilt(
    nodes: seq<Node>, i: nat, deps: Dependencies, dependents: map<string, seq<string>>, indegree: map<string, int>)
    requires i <= |nodes|
  {
    && IdsOk(nodes)
    && deps.Keys == indegree.Keys == IdSet(nodes[..i])
    && (forall v :: v in deps ==> v in IdSet(nodes) && Declared(NodeOf(nodes, v)) == Names(deps[v]))
    && (forall v :: v in deps ==> indegree[v] == |deps[v]|)
    && Reversed(deps, dependents)
  }

  lemma NextNode(nodes: seq<Node>, i: nat)
    requires IdsOk(nodes) && i < |nodes|
    ensures nodes[i].id.text in IdSet(nodes) && NodeOf(nodes, nodes[i].id.text) == nodes[i]
    ensures nodes[i].id.text !in IdSet(nodes[..i])
    ensures IdSet(nodes[..i + 1]) == IdSet(nodes[..i]) + {nodes[i].id.text}
  {
    assert nodes[..i + 1] == nodes[..i] + [nodes[i]];
    NodeOfIsTheNode(nodes, nodes[i]);
  }

  lemma AddNode(nodes: seq<Node>, i: nat, deps: Dependencies, dependents: map<string, seq<string>>,
                indegree: map<string, int>, names: seq<string>, after: map<string, seq<string>>)
    requires i < |nodes| && EdgesBuilt(nodes, i, deps, dependents, indegree)
    requires Declared(nodes[i]) == Names(names) && Extended(dependents, after, nodes[i].id.text, names)
    ensures var id := nodes[i].id.text;
            EdgesBuilt(nodes, i + 1, deps[id := names], after, indegree[id := |names|])
  {
    NextNode(nodes, i);
    ExtendReversed(deps, dependents, nodes[i].id.text, names, after);
  }

  /** Validation succeeds exactly for the accepted lists. */
  lemma ValidMeansAccepted(nodes: seq<Node>)
    ensures IdError(nodes).None? <==> IdsOk(nodes)
    ensures IdsOk(nodes) ==> (DepError(nodes, IdSet(nodes)).None? <==> Accepted(nodes))
  {
    IdErrorMeansBadIds(nodes);
    if IdsOk(nodes) {
      DepErrorMeansBadDeps(nodes, IdSet(nodes));
    }
  }

  lemma EdgesComplete(nodes: seq<Node>, deps: Dependencies, dependents: map<string, seq<string>>,
                      indegree: map<string, int>)
    requires EdgesBuilt(nodes, |nodes|, deps, dependents, indegree) && Accepted(nodes)
    ensures deps == DepsOf(nodes) && Counted(deps, indegree, {})
  {
    assert nodes[..|nodes|] == nodes;
    forall v | v in deps
      ensures deps[v] == DepNames(nodes, v)
    {
      assert Declared(NodeOf(nodes, v)) == Names(deps[v]);
    }
    CountedAtStart(deps, indegree);
  }

  lemma DepErrorStep(nodes: seq<Node>, i: nat, ids: set<string>)
    requires IdsOk(nodes) && i < |nodes| && DepError(nodes[..i], ids).None?
    ensures DepError(nodes[..i + 1], ids) == NodeDepError(nodes[i], ids)
    ensures DepError(nodes[..i + 1], ids).Some? ==> DepError(nodes, ids) == DepError(nodes[..i + 1], ids)
  {
    assert nodes[..i + 1][..i] == nodes[..i];
    if DepError(nodes[..i + 1], ids).Some? {
      DepErrorOfPrefix(nodes, i + 1, ids);
    }
  }

  method BuildEdges(nodes: seq<Node>, nodeMap: map<string, Node>)
    returns (r: Result<map<string, seq<string>>, DagError>, indegree: map<string, int>)
    requires IdsOk(nodes) && nodeMap.Keys == IdSet(nodes)
    ensures DepError(nodes, IdSet(nodes)).Some? ==> r == Failure(DepError(nodes, IdSet(nodes)).value)
    ensures DepError(nodes, IdSet(nodes)).None? ==>
              && r.Success? && Accepted(nodes)
              && Reversed(DepsOf(nodes), r.value)
              && Counted(DepsOf(nodes), indegree, {})
  {
    var dependents: map<string, seq<string>> := map[];
    var dependencies: map<string, seq<string>> := map[];
    indegree := map[];
    for i := 0 to |nodes|
      invariant DepError(nodes[..i], nodeMap.Keys).None?
      invariant EdgesBuilt(nodes, i, dependencies, dependents, indegree)
    {
      var id := nodes[i].id.text;
      DepErrorStep(nodes, i, nodeMap.Keys);
      var deps := Declared(nodes[i]);
      if !deps.Names? {
        return Failure(MalformedDependencies(id)), indegree;
      }
      var added := AddDependents(id, deps.names, nodeMap, dependents);
      if added.Failure? {
        return Failure(added.error), indegree;
      }
      AddNode(nodes, i, dependencies, dependents, indegree, deps.names, added.value);
      dependents := added.value;
      dependencies := dependencies[id := deps.names];
      indegree := indegree[id := |deps.names|];
    }
    assert nodes[..|nodes|] == nodes;
    ValidMeansAccepted(nodes);
    EdgesComplete(nodes, dependencies, dependents, indegree);
    r := Success(dependents);
  }

  // ---- The rounds

  /** What is done for one dependent of a finished node: with nothing else pending it is ready. */
  method CountDown(dependent: string, indegree0: map<string, int>, next0: seq<string>, ghost after: map<string, int>,
                   ghost list: seq<string>)
    returns (indegree: map<string, int>, next: seq<string>)
    requires dependent in indegree0
    requires after == Lowered(indegree0, dependent) && list == Listed(after, dependent, next0)
    ensures indegree == after && next == list
  {
    indegree, next := indegree0[dependent := indegree0[dependent] - 1], next0;
    if indegree[dependent] == 0 {
      next := next + [dependent];
    }
  }

  method Decrement(ghost deps: Dependencies, ghost start: set<string>, ghost done: set<string>, ghost u: string,
                   all: seq<string>, j: nat, indegree0: map<string, int>, next0: seq<string>)
    returns (indegree: map<string, int>, next: seq<string>)
    requires AreDependents(deps, u, all) && start <= done && u !in done && j < |all|
    requires PartlyCounted(deps, indegree0, done, all[..j]) && ReadySince(deps, indegree0, start, next0)
    ensures PartlyCounted(deps, indegree, done, all[..j + 1]) && ReadySince(deps, indegree, start, next)
  {
    ghost var after, list := DecrementKeeps(deps, indegree0, start, done, u, all, j, next0);
    indegree, next := CountDown(all[j], indegree0, next0, after, list);
  }

  /** The body of the round for one finished node `u` with the dependents `all`. */
  method DecrementAll(ghost deps: Dependencies, ghost start: set<string>, ghost done: set<string>, ghost u: string,
                      all: seq<string>, indegree0: map<string, int>, next0: seq<string>)
    returns (indegree: map<string, int>, next: seq<string>)
    requires AreDependents(deps, u, all) && start <= done && u !in done
    requires PartlyCounted(deps, indegree0, done, []) && ReadySince(deps, indegree0, start, next0)
    ensures PartlyCounted(deps, indegree, done, all) && ReadySince(deps, indegree, start, next)
  {
    indegree, next := indegree0, next0;
    var j := 0;
    while j < |all|
      invariant j <= |all|
      invariant PartlyCounted(deps, indegree, done, all[..j]) && ReadySince(deps, indegree, start, next)
    {
      indegree, next := Decrement(deps, start, done, u, all, j, indegree, next);
      j := j + 1;
    }
    assert all[..j] == all;
  }

  method FinishNode(ghost deps: Dependencies, ghost start: set<string>, ghost done: set<string>, u: string,
                    dependents: map<string, seq<string>>, indegree0: map<string, int>, next0: seq<string>)
    returns (indegree: map<string, int>, next: seq<string>)
    requires Reversed(deps, dependents) && Counted(deps, indegree0, done)
    requires start <= done && u !in done && ReadySince(deps, indegree0, start, next0)
    ensures Counted(deps, indegree, done + {u}) && ReadySince(deps, indegree, start, next)
  {
    var all := if u in dependents then dependents[u] else [];
    DependentsOf(deps, dependents, u);
    indegree, next := DecrementAll(deps, start, done, u, all, indegree0, next0);
    NodeFinished(deps, indegree, done, u, all);
  }

  method FinishLayer(ghost deps: Dependencies, ghost start: set<string>, current: seq<string>,
                     dependents: map<string, seq<string>>, indegree0: map<string, int>)
    returns (indegree: map<string, int>, next: seq<string>)
    requires Reversed(deps, dependents) && Counted(deps, indegree0, start)
    requires Distinct(current) && Members(current) !! start
    ensures Counted(deps, indegree, start + Members(current))
    ensures Distinct(next) && Members(next) == NewlyReady(deps, start, current)
  {
    indegree, next := indegree0, [];
    ghost var done := start;
    for i := 0 to |current|
      invariant done == start + Members(current[..i])
      invariant Counted(deps, indegree, done) && ReadySince(deps, indegree, start, next)
    {
      assert current[..i + 1] == current[..i] + [current[i]];
      assert current[i] in current;
      indegree, next := FinishNode(deps, start, done, current[i], dependents, indegree, next);
      done := done + {current[i]};
    }
    assert current[..|current|] == current;
  }

  // ---- The result

  ghost function Ids(nodes: seq<Node>): seq<string> {
    seq(|nodes|, i requires 0 <= i < |nodes| => IdOf(nodes[i]))
  }

  /** The node at each place is the node of that id, ids ascend, and they are exactly layer `k` of the graph. */
  ghost predicate IsLayer(nodes: seq<Node>, k: nat, layer: seq<Node>)
    requires Accepted(nodes)
  {
    && (forall n :: n in layer ==> n in nodes && HasId(n))
    && Sorted(Ids(layer)) && Distinct(Ids(layer))
    && Members(Ids(layer)) == Layer(GraphOfNodes(nodes), k)
  }

  ghost predicate LayersOk(nodes: seq<Node>, layers: seq<seq<Node>>)
    requires Accepted(nodes)
  {
    forall k :: 0 <= k < |layers| ==> layers[k] != [] && IsLayer(nodes, k, layers[k])
  }

  lemma AddLayer(nodes: seq<Node>, layers: seq<seq<Node>>, layer: seq<Node>)
    requires Accepted(nodes) && LayersOk(nodes, layers) && layer != [] && IsLayer(nodes, |layers|, layer)
    ensures LayersOk(nodes, layers + [layer])
  {
    forall k | 0 <= k < |layers| + 1
      ensures (layers + [layer])[k] != [] && IsLayer(nodes, k, (layers + [layer])[k])
    {
      if k < |layers| {
        assert (layers + [layer])[k] == layers[k];
      }
    }
  }

  /** The canonical layering: layer `k` holds the nodes whose longest dependency chain has length `k`, until
      every node is placed. */
  ghost predicate IsLayering(nodes: seq<Node>, layers: seq<seq<Node>>)
    requires Accepted(nodes)
  {
    && LayersOk(nodes, layers)
    && Placed(GraphOfNodes(nodes), |layers|) == IdSet(nodes)
  }

  /** The nodes of a cycle error: ascending, and exactly those from which dependencies lead to a cycle. */
  ghost predicate NamesCyclic(nodes: seq<Node>, ids: seq<string>)
    requires Accepted(nodes)
  {
    && Sorted(ids) && Distinct(ids) && ids != []
    && forall v :: v in ids <==> v in IdSet(nodes) && ReachesCycle(GraphOfNodes(nodes), v)
  }

  lemma NextLayerSize(nodes: seq<Node>, k: nat, current: seq<string>)
    requires Accepted(nodes) && Distinct(current) && Members(current) == Layer(GraphOfNodes(nodes), k)
    ensures |Placed(GraphOfNodes(nodes), k + 1)| == |Placed(GraphOfNodes(nodes), k)| + |current|
    ensures Placed(GraphOfNodes(nodes), k + 1) == Placed(GraphOfNodes(nodes), k) + Members(current)
    ensures Placed(GraphOfNodes(nodes), k) !! Members(current)
  {
    PlacedGrows(GraphOfNodes(nodes), k, k + 1);
    DistinctSize(current);
    assert Placed(GraphOfNodes(nodes), k + 1) == Placed(GraphOfNodes(nodes), k) + Members(current);
  }

  method NodesOf(ghost nodes: seq<Node>, nodeMap: map<string, Node>, ghost k: nat, current: seq<string>)
    returns (layer: seq<Node>)
    requires Accepted(nodes) && nodeMap.Keys == IdSet(nodes)
    requires forall v :: v in nodeMap ==> nodeMap[v] == NodeOf(nodes, v)
    requires Sorted(current) && Distinct(current) && Members(current) == Layer(GraphOfNodes(nodes), k)
    ensures |layer| == |current| && IsLayer(nodes, k, layer)
  {
    GraphIsClosed(nodes);
    PlacedGrows(GraphOfNodes(nodes), k + 1, k + 1);
    forall v | v in current
      ensures v in nodeMap
    {
      assert v in Members(current);
    }
    layer := seq(|current|, i requires 0 <= i < |current| => nodeMap[current[i]]);
    assert forall i :: 0 <= i < |current| ==> layer[i] == NodeOf(nodes, current[i]);
    assert Ids(layer) == current;
  }

  ghost predicate AtRound(nodes: seq<Node>, indegree: map<string, int>, current: seq<string>, layers: seq<seq<Node>>)
    requires Accepted(nodes)
  {
    && Counted(DepsOf(nodes), indegree, Placed(GraphOfNodes(nodes), |layers|))
    && Distinct(current) && Members(current) == Layer(GraphOfNodes(nodes), |layers|)
    && LayersOk(nodes, layers)
  }

  lemma FirstLayer(nodes: seq<Node>, indegree: map<string, int>, current: seq<string>)
    requires Accepted(nodes) && Counted(DepsOf(nodes), indegree, {})
    requires Distinct(current) && forall v :: v in current <==> v in indegree && indegree[v] == 0
    ensures AtRound(nodes, indegree, current, [])
  {
    var g := GraphOfNodes(nodes);
    PlacedGrows(g, 1, 1);
    forall v | v in indegree
      ensures v in current <==> v in Placed(g, 1)
    {
      ReadyIsPlaced(DepsOf(nodes), 0, v);
    }
    assert Members(current) == Layer(g, 0);
  }

  method Round(nodes: seq<Node>, nodeMap: map<string, Node>, dependents: map<string, seq<string>>,
               indegree0: map<string, int>, current0: seq<string>, layers0: seq<seq<Node>>)
    returns (indegree: map<string, int>, current: seq<string>, layers: seq<seq<Node>>)
    requires Accepted(nodes) && nodeMap.Keys == IdSet(nodes)
    requires forall v :: v in nodeMap ==> nodeMap[v] == NodeOf(nodes, v)
    requires Reversed(DepsOf(nodes), dependents)
    requires AtRound(nodes, indegree0, current0, layers0) && current0 != []
    ensures AtRound(nodes, indegree, current, layers)
    ensures |layers| == |layers0| + 1 && layers[|layers0|] != []
    ensures |Placed(GraphOfNodes(nodes), |layers|)|
         == |Placed(GraphOfNodes(nodes), |layers0|)| + |layers[|layers0|]| <= |nodes|
  {
    ghost var k := |layers0|;
    var sorted := Sort(current0);
    PermutationKeepsDistinct(current0, sorted);
    assert Members(sorted) == Members(current0);
    var layer := NodesOf(nodes, nodeMap, k, sorted);
    layers := layers0 + [layer];
    AddLayer(nodes, layers0, layer);
    NextLayerSize(nodes, k, sorted);
    NextLayer(DepsOf(nodes), k, sorted);
    indegree, current := FinishLayer(DepsOf(nodes), Placed(GraphOfNodes(nodes), k), sorted, dependents, indegree0);
    PlacedSize(nodes, k + 1);
  }

  lemma PlacedSize(nodes: seq<Node>, k: nat)
    requires Accepted(nodes)
    ensures |Placed(GraphOfNodes(nodes), k)| <= |nodes| == |IdSet(nodes)|
    ensures |Placed(GraphOfNodes(nodes), k)| == |nodes| <==> Placed(GraphOfNodes(nodes), k) == IdSet(nodes)
  {
    GraphIsClosed(nodes);
    PlacedGrows(GraphOfNodes(nodes), k, k);
    SubsetSize(Placed(GraphOfNodes(nodes), k), IdSet(nodes));
  }

  /** When a round finds nothing ready, the placed nodes are those that reach no cycle. */
  lemma NothingReady(nodes: seq<Node>, k: nat)
    requires Accepted(nodes) && Layer(GraphOfNodes(nodes), k) == {}
    ensures Placed(GraphOfNodes(nodes), k) == Placed(GraphOfNodes(nodes), k + 1)
    ensures Placed(GraphOfNodes(nodes), k) == IdSet(nodes) <==> Acyclic(GraphOfNodes(nodes))
    ensures forall v :: v in IdSet(nodes) ==>
              (v !in Placed(GraphOfNodes(nodes), k) <==> ReachesCycle(GraphOfNodes(nodes), v))
  {
    GraphIsClosed(nodes);
    var n := EmptyLayerSettles(GraphOfNodes(nodes), k);
    AllPlacedIffAcyclic(GraphOfNodes(nodes), n);
    forall v | v in IdSet(nodes)
      ensures v !in Placed(GraphOfNodes(nodes), k) <==> ReachesCycle(GraphOfNodes(nodes), v)
    {
      UnplacedReachesCycle(GraphOfNodes(nodes), v, n);
    }
  }

  method StillPositive(indegree: map<string, int>) returns (cyclic: seq<string>)
    ensures Sorted(cyclic) && Distinct(cyclic) && forall v :: v in cyclic <==> v in indegree && indegree[v] > 0
  {
    var found: seq<string> := [];
    var rest := indegree.Keys;
    while rest != {}
      invariant rest <= indegree.Keys && Distinct(found)
      invariant forall v :: v in found <==> v in indegree && v !in rest && indegree[v] > 0
      decreases rest
    {
      var v :| v in rest;
      rest := rest - {v};
      if indegree[v] > 0 {
        found := found + [v];
      }
    }
    cyclic := Sort(found);
    PermutationKeepsDistinct(found, cyclic);
  }

  lemma PositiveMeansUnplaced(nodes: seq<Node>, indegree: map<string, int>, k: nat, v: string)
    requires Accepted(nodes) && v in IdSet(nodes) && Counted(DepsOf(nodes), indegree, Placed(GraphOfNodes(nodes), k))
    requires Layer(GraphOfNodes(nodes), k) == {}
    ensures indegree[v] > 0 <==> ReachesCycle(GraphOfNodes(nodes), v)
  {
    NothingReady(nodes, k);
    ReadyIsPlaced(DepsOf(nodes), k, v);
  }

  lemma SomeoneReachesCycle(nodes: seq<Node>, k: nat) returns (v: string)
    requires Accepted(nodes) && Layer(GraphOfNodes(nodes), k) == {}
    requires |Placed(GraphOfNodes(nodes), k)| != |nodes|
    ensures v in IdSet(nodes) && ReachesCycle(GraphOfNodes(nodes), v)
  {
    NothingReady(nodes, k);
    PlacedSize(nodes, k);
    GraphIsClosed(nodes);
    PlacedGrows(GraphOfNodes(nodes), k, k);
    v :| v in IdSet(nodes) && v !in Placed(GraphOfNodes(nodes), k);
  }

  lemma CyclicNodes(nodes: seq<Node>, indegree: map<string, int>, k: nat, cyclic: seq<string>)
    requires Accepted(nodes) && Counted(DepsOf(nodes), indegree, Placed(GraphOfNodes(nodes), k))
    requires Layer(GraphOfNodes(nodes), k) == {} && |Placed(GraphOfNodes(nodes), k)| != |nodes|
    requires Sorted(cyclic) && Distinct(cyclic) && forall v :: v in cyclic <==> v in indegree && indegree[v] > 0
    ensures NamesCyclic(nodes, cyclic)
  {
    forall v | v in IdSet(nodes)
      ensures v in cyclic <==> ReachesCycle(GraphOfNodes(nodes), v)
    {
      PositiveMeansUnplaced(nodes, indegree, k, v);
    }
    var v := SomeoneReachesCycle(nodes, k);
  }

  method Conclude(nodes: seq<Node>, nodeMap: map<string, Node>, indegree: map<string, int>, layers: seq<seq<Node>>,
                  visited: int)
    returns (r: Result<seq<seq<Node>>, DagError>)
    requires Accepted(nodes) && nodeMap.Keys == IdSet(nodes)
    requires AtRound(nodes, indegree, [], layers) && visited == |Placed(GraphOfNodes(nodes), |layers|)|
    ensures r.Success? <==> Acyclic(GraphOfNodes(nodes))
    ensures r.Success? ==> IsLayering(nodes, r.value)
    ensures r.Failure? ==> r.error.CyclicDependency? && NamesCyclic(nodes, r.error.ids)
  {
    NothingReady(nodes, |layers|);
    PlacedSize(nodes, |layers|);
    if visited != |nodeMap.Keys| {
      var cyclic := StillPositive(indegree);
      CyclicNodes(nodes, indegree, |layers|, cyclic);
      return Failure(CyclicDependency(cyclic));
    }
    r := Success(layers);
  }

  /** Every error is decided by validation first, in list order; then the result is the canonical layering if
      the dependency graph is acyclic, and otherwise an error that names exactly the nodes that reach a cycle. */
  method TopologicalSort(nodes: seq<Node>) returns (r: Result<seq<seq<Node>>, DagError>)
    ensures IdError(nodes).Some? ==> r == Failure(IdError(nodes).value)
    ensures IdsOk(nodes) && DepError(nodes, IdSet(nodes)).Some? ==> r == Failure(DepError(nodes, IdSet(nodes)).value)
    ensures Accepted(nodes) ==> (r.Success? <==> Acyclic(GraphOfNodes(nodes)))
    ensures Accepted(nodes) && r.Success? ==> IsLayering(nodes, r.value)
    ensures Accepted(nodes) && r.Failure? ==> r.error.CyclicDependency? && NamesCyclic(nodes, r.error.ids)
  {
    ValidMeansAccepted(nodes);
    var built := BuildNodeMap(nodes);
    if built.Failure? {
      return Failure(built.error);
    }
    var nodeMap := built.value;
    var edges, indegree := BuildEdges(nodes, nodeMap);
    if edges.Failure? {
      return Failure(edges.error);
    }
    r := Layers(nodes, nodeMap, edges.value, indegree);
  }

  method ReadyAtStart(indegree: map<string, int>) returns (current: seq<string>)
    ensures Distinct(current) && forall v :: v in current <==> v in indegree && indegree[v] == 0
  {
    current := [];
    var rest := indegree.Keys;
    while rest != {}
      invariant rest <= indegree.Keys && Distinct(current)
      invariant forall v :: v in current <==> v in indegree && v !in rest && indegree[v] == 0
      decreases rest
    {
      var v :| v in rest;
      rest := rest - {v};
      if indegree[v] == 0 {
        current := current + [v];
      }
    }
  }

  method Layers(nodes: seq<Node>, nodeMap: map<string, Node>, dependents: map<string, seq<string>>,
                indegree0: map<string, int>)
    returns (r: Result<seq<seq<Node>>, DagError>)
    requires Accepted(nodes) && nodeMap.Keys == IdSet(nodes)
    requires forall v :: v in nodeMap ==> nodeMap[v] == NodeOf(nodes, v)
    requires Reversed(DepsOf(nodes), dependents) && Counted(DepsOf(nodes), indegree0, {})
    ensures r.Success? <==> Acyclic(GraphOfNodes(nodes))
    ensures r.Success? ==> IsLayering(nodes, r.value)
    ensures r.Failure? ==> r.error.CyclicDependency? && NamesCyclic(nodes, r.error.ids)
  {
    ghost var g := GraphOfNodes(nodes);
    var indegree := indegree0;
    var current := ReadyAtStart(indegree);
    var layers: seq<seq<Node>> := [];
    var visited := 0;
    FirstLayer(nodes, indegree, current);
    while current != []
      invariant AtRound(nodes, indegree, current, layers)
      invariant visited == |Placed(g, |layers|)| <= |nodes|
      decreases |nodes| - visited
    {
      indegree, current, layers := Round(nodes, nodeMap, dependents, indegree, current, layers);
      visited := visited + |layers[|layers| - 1]|;
    }
    r := Conclude(nodes, nodeMap, indegree, layers, visited);
  }
}
