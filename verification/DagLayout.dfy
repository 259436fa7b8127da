/** `layoutDag`: the canvas's tolerant layering of any node list, dirty data included.

    Of nodes with one id the first counts, and dependencies that name no node, nothing or the node itself are ignored.
    What never becomes ready is shown as one last layer. */
module DagLayout {
  import opened Wrappers
  import opened DependencyGraph
  import opened StringOrder
  import opened KahnCounting
  import opened LayoutOrder

  datatype DagNode = DagNode(id: string, dependencies: Option<seq<string>>, body: string)

  // ---- The first node of each id

  ghost function LayoutIds(nodes: seq<DagNode>): set<string> {
    set n | n in nodes :: n.id
  }

  ghost function Firsts(nodes: seq<DagNode>): seq<DagNode> {
    if nodes == [] then []
    else
      var n := |nodes| - 1;
      Firsts(nodes[..n]) + if nodes[n].id in LayoutIds(nodes[..n]) then [] else [nodes[n]]
  }

  ghost predicate DistinctIds(nodes: seq<DagNode>) {
    forall i, j :: 0 <= i < j < |nodes| ==> nodes[i].id != nodes[j].id
  }

  lemma FirstsStep(nodes: seq<DagNode>, n: nat)
    requires n < |nodes|
    ensures Firsts(nodes[..n + 1])
         == Firsts(nodes[..n]) + if nodes[n].id in LayoutIds(nodes[..n]) then [] else [nodes[n]]
    ensures LayoutIds(nodes[..n + 1]) == LayoutIds(nodes[..n]) + {nodes[n].id}
  {
    assert nodes[..n + 1][..n] == nodes[..n] && nodes[..n + 1] == nodes[..n] + [nodes[n]];
  }

  lemma OneMoreId(nodes: seq<DagNode>, n: DagNode)
    ensures LayoutIds(nodes + [n]) == LayoutIds(nodes) + {n.id}
    ensures DistinctIds(nodes) && n.id !in LayoutIds(nodes) ==> DistinctIds(nodes + [n])
  {
    var ids, all := LayoutIds(nodes), nodes + [n];
    forall x
      ensures x in all <==> x in nodes || x == n
    {
    }
    assert forall i :: 0 <= i < |nodes| ==> nodes[i] in nodes && nodes[i].id in ids;
  }

  /** `Firsts` keeps every id once. */
  lemma {:induction false} FirstsKeepsIds(nodes: seq<DagNode>)
    ensures DistinctIds(Firsts(nodes)) && LayoutIds(Firsts(nodes)) == LayoutIds(nodes)
  {
    if nodes != [] {
      var n := |nodes| - 1;
      FirstsKeepsIds(nodes[..n]);
      assert nodes == nodes[..n] + [nodes[n]];
      OneMoreId(nodes[..n], nodes[n]);
      OneMoreId(Firsts(nodes[..n]), nodes[n]);
    }
  }

  /** ... with the contents of its first occurrence. */
  lemma {:induction false} FirstsKeepsFirstOccurrences(nodes: seq<DagNode>, m: DagNode) returns (i: nat)
    requires m in Firsts(nodes)
    ensures i < |nodes| && nodes[i] == m && m.id !in LayoutIds(nodes[..i])
  {
    var n := |nodes| - 1;
    if m in Firsts(nodes[..n]) {
      i := FirstsKeepsFirstOccurrences(nodes[..n], m);
      assert nodes[..n][..i] == nodes[..i];
    } else {
      i := n;
    }
  }

  ghost function NodeWith(nodes: seq<DagNode>, v: string): DagNode
    requires v in LayoutIds(nodes)
  {
    FirstsKeepsIds(nodes);
    var n :| n in Firsts(nodes) && n.id == v; n
  }

  lemma NodeWithIsFirst(nodes: seq<DagNode>, n: DagNode)
    requires n in Firsts(nodes)
    ensures n.id in LayoutIds(nodes) && NodeWith(nodes, n.id) == n
  {
    FirstsKeepsIds(nodes);
    assert n.id in LayoutIds(Firsts(nodes));
  }

  // ---- Dependencies that survive

  /** Empty, own, unknown and repeated dependencies are ignored. */
  ghost function Normalized(id: string, raw: seq<string>, ids: set<string>): seq<string> {
    if raw == [] then []
    else
      var n := |raw| - 1;
      var kept := Normalized(id, raw[..n], ids);
      if raw[n] == "" || raw[n] == id || raw[n] !in ids || raw[n] in kept then kept else kept + [raw[n]]
  }

  lemma {:induction false} NormalizedKeeps(id: string, raw: seq<string>, ids: set<string>)
    ensures Distinct(Normalized(id, raw, ids))
    ensures forall d :: d in Normalized(id, raw, ids) <==> d in raw && d != "" && d != id && d in ids
  {
    if raw != [] {
      NormalizedKeeps(id, raw[..|raw| - 1], ids);
      assert raw == raw[..|raw| - 1] + [raw[|raw| - 1]];
    }
  }

  function Raw(n: DagNode): seq<string> {
    if n.dependencies.Some? then n.dependencies.value else []
  }

  ghost function SurvivingDeps(nodes: seq<DagNode>, v: string): seq<string>
    requires v in LayoutIds(nodes)
  {
    Normalized(v, Raw(NodeWith(nodes, v)), LayoutIds(nodes))
  }

  ghost function LayoutDeps(nodes: seq<DagNode>): Dependencies {
    map v | v in LayoutIds(nodes) :: SurvivingDeps(nodes, v)
  }

  ghost function LayoutGraph(nodes: seq<DagNode>): Graph {
    GraphOf(LayoutDeps(nodes))
  }

  lemma LayoutGraphIsClosed(nodes: seq<DagNode>)
    ensures Closed(LayoutGraph(nodes)) && LayoutGraph(nodes).Keys == LayoutIds(nodes)
    ensures forall v, d :: v in LayoutIds(nodes) ==>
              (d in LayoutGraph(nodes)[v] <==>
               d in Raw(NodeWith(nodes, v)) && d != "" && d != v && d in LayoutIds(nodes))
  {
    forall v | v in LayoutIds(nodes)
      ensures forall d :: d in SurvivingDeps(nodes, v) <==>
                d in Raw(NodeWith(nodes, v)) && d != "" && d != v && d in LayoutIds(nodes)
    {
      NormalizedKeeps(v, Raw(NodeWith(nodes, v)), LayoutIds(nodes));
    }
  }

  method NormalizeDependencies(node: DagNode, byId: map<string, DagNode>) returns (result: seq<string>)
    ensures result == Normalized(node.id, Raw(node), byId.Keys)
  {
    var raw := Raw(node);
    result := [];
    for i := 0 to |raw|
      invariant result == Normalized(node.id, raw[..i], byId.Keys)
    {
      assert raw[..i + 1][..i] == raw[..i];
      var dep := raw[i];
      if dep == "" || dep == node.id || dep !in byId {
        continue;
      }
      if dep !in result {
        result := result + [dep];
      }
    }
    assert raw[..|raw|] == raw;
  }

  method IndexById(nodes: seq<DagNode>) returns (byId: map<string, DagNode>, unique: seq<DagNode>)
    ensures unique == Firsts(nodes)
    ensures byId.Keys == LayoutIds(nodes) && forall v :: v in byId ==> byId[v] == NodeWith(nodes, v)
  {
    byId, unique := map[], [];
    for i := 0 to |nodes|
      invariant unique == Firsts(nodes[..i])
      invariant byId.Keys == LayoutIds(nodes[..i])
      invariant forall v :: v in byId ==> byId[v] in unique && byId[v].id == v
    {
      FirstsStep(nodes, i);
      if nodes[i].id !in byId {
        byId := byId[nodes[i].id := nodes[i]];
        unique := unique + [nodes[i]];
      }
    }
    assert nodes[..|nodes|] == nodes;
    forall v | v in byId
      ensures byId[v] == NodeWith(nodes, v)
    {
      NodeWithIsFirst(nodes, byId[v]);
    }
  }

  // ---- Counting

  ghost predicate EdgesBuilt(nodes: seq<DagNode>, i: nat, deps: Dependencies, dependents: map<string, seq<string>>,
                             indegree: map<string, int>)
    requires i <= |Firsts(nodes)|
  {
    && deps.Keys == indegree.Keys == LayoutIds(Firsts(nodes)[..i])
    && (forall v :: v in deps ==>
          v in LayoutIds(nodes) && deps[v] == SurvivingDeps(nodes, v) && indegree[v] == |deps[v]|)
    && Reversed(deps, dependents)
  }

  lemma NextNode(nodes: seq<DagNode>, i: nat)
    requires i < |Firsts(nodes)|
    ensures var n := Firsts(nodes)[i];
            && n.id in LayoutIds(nodes) && n.id !in LayoutIds(Firsts(nodes)[..i])
            && LayoutIds(Firsts(nodes)[..i + 1]) == LayoutIds(Firsts(nodes)[..i]) + {n.id}
            && SurvivingDeps(nodes, n.id) == Normalized(n.id, Raw(n), LayoutIds(nodes))
  {
    var unique := Firsts(nodes);
    FirstsKeepsIds(nodes);
    assert unique[..i + 1] == unique[..i] + [unique[i]];
    NodeWithIsFirst(nodes, unique[i]);
  }

  lemma AddNode(nodes: seq<DagNode>, i: nat, deps: Dependencies, dependents: map<string, seq<string>>,
                indegree: map<string, int>, names: seq<string>, after: map<string, seq<string>>)
    requires i < |Firsts(nodes)| && EdgesBuilt(nodes, i, deps, dependents, indegree)
    requires names == Normalized(Firsts(nodes)[i].id, Raw(Firsts(nodes)[i]), LayoutIds(nodes))
    requires Extended(dependents, after, Firsts(nodes)[i].id, names)
    ensures var id := Firsts(nodes)[i].id;
            EdgesBuilt(nodes, i + 1, deps[id := names], after, indegree[id := |names|])
  {
    var id := Firsts(nodes)[i].id;
    NextNode(nodes, i);
    ExtendReversed(deps, dependents, id, names, after);
    var deps', indegree' := deps[id := names], indegree[id := |names|];
    assert deps'.Keys == indegree'.Keys == LayoutIds(Firsts(nodes)[..i + 1]);
    forall v | v in deps'
      ensures v in LayoutIds(nodes) && deps'[v] == SurvivingDeps(nodes, v) && indegree'[v] == |deps'[v]|
    {
      if v != id {
        assert v in deps;
      }
    }
  }

  method AddDependents(id: string, deps: seq<string>, dependents: map<string, seq<string>>, ghost order: seq<string>,
                       ghost i: nat)
    returns (table: map<string, seq<string>>)
    requires Distinct(deps) && Pos(order, id) == i && Bounded(order, i, dependents)
    ensures Extended(dependents, table, id, deps)
    ensures Bounded(order, i + 1, table)
  {
    table := dependents;
    for j := 0 to |deps|
      invariant Extended(dependents, table, id, deps[..j]) && Added(order, i, id, deps[..j], table)
    {
      assert deps[..j + 1] == deps[..j] + [deps[j]];
      ExtendOnce(dependents, table, id, deps[..j], deps[j]);
      AddChild(order, i, id, deps[..j], table, deps[j]);
      var list := if deps[j] in table then table[deps[j]] else [];
      table := table[deps[j] := list + [id]];
    }
    assert deps[..|deps|] == deps;
    AllAdded(order, i, id, deps, table);
  }

  method BuildEdges(nodes: seq<DagNode>, byId: map<string, DagNode>, unique: seq<DagNode>)
    returns (indegree: map<string, int>, dependents: map<string, seq<string>>)
    requires unique == Firsts(nodes) && byId.Keys == LayoutIds(nodes)
    ensures Reversed(LayoutDeps(nodes), dependents) && Counted(LayoutDeps(nodes), indegree, {})
    ensures TableAscends(InputOrder(nodes), dependents)
  {
    indegree, dependents := map[], map[];
    ghost var all: Dependencies := map[];
    for i := 0 to |unique|
      invariant EdgesBuilt(nodes, i, all, dependents, indegree)
      invariant Bounded(InputOrder(nodes), i, dependents)
    {
      var deps := NormalizeDependencies(unique[i], byId);
      NormalizedKeeps(unique[i].id, Raw(unique[i]), byId.Keys);
      InputPlace(nodes, i);
      var table := AddDependents(unique[i].id, deps, dependents, InputOrder(nodes), i);
      AddNode(nodes, i, all, dependents, indegree, deps, table);
      indegree := indegree[unique[i].id := |deps|];
      all := all[unique[i].id := deps];
      dependents := table;
    }
    EdgesComplete(nodes, all, dependents, indegree);
  }

  ghost function NodeIds(nodes: seq<DagNode>): seq<string> {
    seq(|nodes|, i requires 0 <= i < |nodes| => nodes[i].id)
  }

  /** The ids in the order of their first nodes. */
  ghost function InputOrder(nodes: seq<DagNode>): seq<string> {
    NodeIds(Firsts(nodes))
  }

  lemma InputPlace(nodes: seq<DagNode>, i: nat)
    requires i < |Firsts(nodes)|
    ensures Pos(InputOrder(nodes), Firsts(nodes)[i].id) == i
  {
    FirstsKeepsIds(nodes);
    PosOfIndex(InputOrder(nodes), i);
  }

  lemma EdgesComplete(nodes: seq<DagNode>, deps: Dependencies, dependents: map<string, seq<string>>,
                      indegree: map<string, int>)
    requires EdgesBuilt(nodes, |Firsts(nodes)|, deps, dependents, indegree)
    ensures deps == LayoutDeps(nodes) && Counted(deps, indegree, {})
  {
    assert Firsts(nodes)[..|Firsts(nodes)|] == Firsts(nodes);
    FirstsKeepsIds(nodes);
    CountedAtStart(deps, indegree);
  }

  // ---- Rounds

  /** Nodes already placed have nothing pending since `start`. */
  ghost predicate PlacedAreReady(deps: Dependencies, start: set<string>, placed: set<string>) {
    forall v :: v in deps && v in placed ==> Pending(deps[v], start) == 0
  }

  lemma ChildIsNew(deps: Dependencies, start: set<string>, done: set<string>, u: string, all: seq<string>, j: nat,
                   placed: set<string>, indegree: map<string, int>, next: seq<string>)
    requires AreDependents(deps, u, all) && start <= done && u !in done && j < |all|
    requires PlacedAreReady(deps, start, placed)
    requires PartlyCounted(deps, indegree, done, all[..j]) && ReadySince(deps, indegree, start, next)
    ensures all[j] in deps && all[j] !in placed && all[j] !in next
  {
    assert all[j] in all;
    CountIsPositive(deps, indegree, start, done, u, all, j);
  }

  /** In the middle of visiting one node: its first `j` children are done. */
  ghost predicate InVisit(v: Visit, all: seq<string>, j: nat, indegree: map<string, int>, next: seq<string>)
    requires v.Valid() && j <= |all|
  {
    && PartlyCounted(v.deps, indegree, v.Done(), all[..j])
    && ReadySince(v.deps, indegree, v.start, next)
    && Visiting(v, all, j, next)
  }

  lemma ChildVisited(v: Visit, all: seq<string>, j: nat, placed: set<string>, indegree: map<string, int>,
                     next: seq<string>) returns (after: map<string, int>, list: seq<string>)
    requires v.Valid() && AreDependents(v.deps, v.Node(), all) && Ascending(v.order, all) && j < |all|
    requires PlacedAreReady(v.deps, v.start, placed) && InVisit(v, all, j, indegree, next)
    ensures all[j] in v.deps && all[j] in indegree && all[j] !in placed && all[j] !in next
    ensures after == Lowered(indegree, all[j]) && list == Listed(after, all[j], next)
    ensures InVisit(v, all, j + 1, after, list)
  {
    NodeIsNotDone(v);
    ChildIsNew(v.deps, v.start, v.Done(), v.Node(), all, j, placed, indegree, next);
    after, list := DecrementKeeps(v.deps, indegree, v.start, v.Done(), v.Node(), all, j, next);
    VisitOne(v, after, all, j, next);
  }

  /** What is done for one child of a visited node: with nothing else pending it is listed. */
  method PassOn(childId: string, placed: set<string>, byId: map<string, DagNode>, indegree0: map<string, int>,
                next0: seq<string>, ghost after: map<string, int>, ghost list: seq<string>)
    returns (indegree: map<string, int>, next: seq<string>)
    requires childId in indegree0 && childId in byId && childId !in placed && childId !in next0
    requires after == Lowered(indegree0, childId) && list == Listed(after, childId, next0)
    ensures indegree == after && next == list
  {
    indegree, next := indegree0, next0;
    if childId !in placed {
      var remaining := (if childId in indegree then indegree[childId] else 0) - 1;
      indegree := indegree[childId := remaining];
      if remaining == 0 && childId in byId && childId !in next {
        next := next + [childId];
      }
    }
  }

  /** One child of a visited node. It is never placed already and never listed already, although the code guards
      against both. */
  method VisitChild(ghost v: Visit, all: seq<string>, j: nat, placed: set<string>, byId: map<string, DagNode>,
                    indegree0: map<string, int>, next0: seq<string>)
    returns (indegree: map<string, int>, next: seq<string>)
    requires v.Valid() && AreDependents(v.deps, v.Node(), all) && Ascending(v.order, all) && j < |all|
    requires PlacedAreReady(v.deps, v.start, placed) && byId.Keys == v.deps.Keys
    requires InVisit(v, all, j, indegree0, next0)
    ensures InVisit(v, all, j + 1, indegree, next)
  {
    ghost var after, list := ChildVisited(v, all, j, placed, indegree0, next0);
    indegree, next := PassOn(all[j], placed, byId, indegree0, next0, after, list);
  }

  lemma NodeIsNotDone(v: Visit)
    requires v.Valid()
    ensures v.start <= v.Done() && v.Node() !in v.Done()
  {
    assert v.Node() in Members(v.frontier);
  }

  method VisitChildren(ghost v: Visit, all: seq<string>, placed: set<string>, byId: map<string, DagNode>,
                       indegree0: map<string, int>, next0: seq<string>)
    returns (indegree: map<string, int>, next: seq<string>)
    requires v.Valid() && AreDependents(v.deps, v.Node(), all) && Ascending(v.order, all)
    requires PlacedAreReady(v.deps, v.start, placed) && byId.Keys == v.deps.Keys
    requires PartlyCounted(v.deps, indegree0, v.Done(), []) && ReadySince(v.deps, indegree0, v.start, next0)
    requires Visited(v.deps, v.order, v.frontier, v.i, next0)
    ensures PartlyCounted(v.deps, indegree, v.Done(), all) && ReadySince(v.deps, indegree, v.start, next)
    ensures Visited(v.deps, v.order, v.frontier, v.i + 1, next)
  {
    indegree, next := indegree0, next0;
    StartVisit(v, all, next);
    var j := 0;
    while j < |all|
      invariant j <= |all|
      invariant InVisit(v, all, j, indegree, next)
    {
      indegree, next := VisitChild(v, all, j, placed, byId, indegree, next);
      j := j + 1;
    }
    assert all[..j] == all;
    EndVisit(v, all, next);
  }

  method VisitNode(ghost v: Visit, u: string, placed: set<string>, byId: map<string, DagNode>,
                   dependents: map<string, seq<string>>, indegree0: map<string, int>, next0: seq<string>)
    returns (indegree: map<string, int>, next: seq<string>)
    requires v.Valid() && u == v.Node() && Reversed(v.deps, dependents) && TableAscends(v.order, dependents)
    requires PlacedAreReady(v.deps, v.start, placed) && byId.Keys == v.deps.Keys
    requires Counted(v.deps, indegree0, v.Done()) && ReadySince(v.deps, indegree0, v.start, next0)
    requires Visited(v.deps, v.order, v.frontier, v.i, next0)
    ensures Counted(v.deps, indegree, v.Done() + {u}) && ReadySince(v.deps, indegree, v.start, next)
    ensures Visited(v.deps, v.order, v.frontier, v.i + 1, next)
  {
    var all := if u in dependents then dependents[u] else [];
    NodeIsNotDone(v);
    DependentsOf(v.deps, dependents, u);
    indegree, next := VisitChildren(v, all, placed, byId, indegree0, next0);
    NodeFinished(v.deps, indegree, v.Done(), u, all);
  }

  method VisitFrontier(ghost deps: Dependencies, ghost order: seq<string>, ghost start: set<string>,
                       frontier: seq<string>, placed: set<string>, byId: map<string, DagNode>,
                       dependents: map<string, seq<string>>, indegree0: map<string, int>)
    returns (indegree: map<string, int>, next: seq<string>)
    requires Reversed(deps, dependents) && Counted(deps, indegree0, start) && TableAscends(order, dependents)
    requires Distinct(frontier) && Members(frontier) !! start
    requires PlacedAreReady(deps, start, placed) && byId.Keys == deps.Keys
    ensures Counted(deps, indegree, start + Members(frontier))
    ensures Distinct(next) && Members(next) == NewlyReady(deps, start, frontier)
    ensures InOrder(deps, order, frontier, next)
  {
    indegree, next := indegree0, [];
    ghost var done := start;
    for i := 0 to |frontier|
      invariant done == start + Members(frontier[..i])
      invariant Counted(deps, indegree, done) && ReadySince(deps, indegree, start, next)
      invariant Visited(deps, order, frontier, i, next)
    {
      assert frontier[..i + 1] == frontier[..i] + [frontier[i]];
      ghost var v := Visit(deps, order, start, frontier, i);
      indegree, next := VisitNode(v, frontier[i], placed, byId, dependents, indegree, next);
      done := done + {frontier[i]};
    }
    assert frontier[..|frontier|] == frontier;
  }

  // ---- The result

  /** Each place holds the first node of its id, and the ids are, once each, those of layer `k`. */
  ghost predicate IsLayer(nodes: seq<DagNode>, k: nat, layer: seq<DagNode>) {
    && (forall n :: n in layer ==> n in Firsts(nodes))
    && Distinct(NodeIds(layer))
    && Members(NodeIds(layer)) == Layer(LayoutGraph(nodes), k)
  }

  /** The nodes that are not in `placed`, in input order. */
  function Unplaced(nodes: seq<DagNode>, placed: set<string>): seq<DagNode> {
    if nodes == [] then []
    else
      var n := |nodes| - 1;
      Unplaced(nodes[..n], placed) + if nodes[n].id in placed then [] else [nodes[n]]
  }

  ghost predicate LayersOk(nodes: seq<DagNode>, layers: seq<seq<DagNode>>) {
    forall k :: 0 <= k < |layers| ==> layers[k] != [] && IsLayer(nodes, k, layers[k])
  }

  /** The layering: the layers of the graph of surviving dependencies, and at the end, in input order, the nodes
      that never become ready. */
  ghost predicate IsLayout(nodes: seq<DagNode>, layers: seq<seq<DagNode>>, settled: nat)
    requires settled <= |layers|
  {
    var g := LayoutGraph(nodes);
    var stuck := Unplaced(Firsts(nodes), Placed(g, settled));
    && LayersOk(nodes, layers[..settled])
    && Layer(g, settled) == {}
    && layers == layers[..settled] + (if stuck == [] then [] else [stuck])
  }

  lemma AddLayer(nodes: seq<DagNode>, layers: seq<seq<DagNode>>, layer: seq<DagNode>)
    requires LayersOk(nodes, layers) && layer != [] && IsLayer(nodes, |layers|, layer)
    ensures LayersOk(nodes, layers + [layer])
  {
    forall k | 0 <= k < |layers| + 1
      ensures (layers + [layer])[k] != [] && IsLayer(nodes, k, (layers + [layer])[k])
    {
      if k < |layers| {
        assert (layers + [layer])[k] == layers[k];
      }
    }
  }

  /** The first layer is in input order; in every later one the nodes stand by the last dependency visited in the
      layer before, and those released together in input order. */
  ghost predicate LayersOrdered(nodes: seq<DagNode>, layers: seq<seq<DagNode>>) {
    forall k :: 0 <= k < |layers| ==> Follows(nodes, layers[..k], NodeIds(layers[k]))
  }

  ghost predicate Follows(nodes: seq<DagNode>, layers: seq<seq<DagNode>>, frontier: seq<string>) {
    if layers == [] then Ascending(InputOrder(nodes), frontier)
    else InOrder(LayoutDeps(nodes), InputOrder(nodes), NodeIds(layers[|layers| - 1]), frontier)
  }

  lemma AddOrderedLayer(nodes: seq<DagNode>, layers: seq<seq<DagNode>>, layer: seq<DagNode>)
    requires LayersOrdered(nodes, layers) && Follows(nodes, layers, NodeIds(layer))
    ensures LayersOrdered(nodes, layers + [layer])
  {
    var all := layers + [layer];
    forall k | 0 <= k < |all|
      ensures Follows(nodes, all[..k], NodeIds(all[k]))
    {
      assert k < |layers| ==> all[..k] == layers[..k];
      assert k == |layers| ==> all[..k] == layers;
    }
  }

  method LayerNodes(ghost nodes: seq<DagNode>, byId: map<string, DagNode>, ghost k: nat, frontier: seq<string>)
    returns (layer: seq<DagNode>)
    requires byId.Keys == LayoutIds(nodes) && forall v :: v in byId ==> byId[v] == NodeWith(nodes, v)
    requires Distinct(frontier) && Members(frontier) == Layer(LayoutGraph(nodes), k)
    ensures |layer| == |frontier| && IsLayer(nodes, k, layer) && NodeIds(layer) == frontier
  {
    LayoutGraphIsClosed(nodes);
    PlacedGrows(LayoutGraph(nodes), k + 1, k + 1);
    forall v | v in frontier
      ensures v in byId
    {
      assert v in Members(frontier);
    }
    layer := seq(|frontier|, i requires 0 <= i < |frontier| => byId[frontier[i]]);
    assert forall i :: 0 <= i < |frontier| ==> layer[i] == NodeWith(nodes, frontier[i]);
    assert NodeIds(layer) == frontier;
  }

  method ReadyAtStart(unique: seq<DagNode>, indegree: map<string, int>) returns (frontier: seq<string>)
    requires DistinctIds(unique) && indegree.Keys == LayoutIds(unique)
    ensures Distinct(frontier) && forall v :: v in frontier <==> v in indegree && indegree[v] == 0
    ensures Ascending(NodeIds(unique), frontier)
  {
    frontier := [];
    for i := 0 to |unique|
      invariant Distinct(frontier)
      invariant forall v :: v in frontier <==> v in LayoutIds(unique[..i]) && v in indegree && indegree[v] == 0
      invariant Ascending(NodeIds(unique), frontier)
      invariant forall a :: 0 <= a < |frontier| ==> Pos(NodeIds(unique), frontier[a]) < i
    {
      assert unique[..i + 1] == unique[..i] + [unique[i]];
      assert LayoutIds(unique[..i + 1]) == LayoutIds(unique[..i]) + {unique[i].id};
      PosOfIndex(NodeIds(unique), i);
      var id := unique[i].id;
      if (if id in indegree then indegree[id] else 0) == 0 {
        assert id in LayoutIds(unique);
        frontier := frontier + [id];
      }
    }
    assert unique[..|unique|] == unique;
  }

  ghost predicate AtRound(nodes: seq<DagNode>, indegree: map<string, int>, frontier: seq<string>,
                          placed: set<string>, layers: seq<seq<DagNode>>)
  {
    && placed == Placed(LayoutGraph(nodes), |layers|)
    && Counted(LayoutDeps(nodes), indegree, placed)
    && Distinct(frontier) && Members(frontier) == Layer(LayoutGraph(nodes), |layers|)
    && LayersOk(nodes, layers) && LayersOrdered(nodes, layers) && Follows(nodes, layers, frontier)
  }

  lemma FirstRound(nodes: seq<DagNode>, indegree: map<string, int>, frontier: seq<string>)
    requires Counted(LayoutDeps(nodes), indegree, {})
    requires Distinct(frontier) && forall v :: v in frontier <==> v in indegree && indegree[v] == 0
    requires Ascending(InputOrder(nodes), frontier)
    ensures AtRound(nodes, indegree, frontier, {}, [])
  {
    var g := LayoutGraph(nodes);
    PlacedGrows(g, 1, 1);
    forall v | v in indegree
      ensures v in frontier <==> v in Placed(g, 1)
    {
      ReadyIsPlaced(LayoutDeps(nodes), 0, v);
    }
    assert Members(frontier) == Layer(g, 0);
  }

  lemma NextPlaced(nodes: seq<DagNode>, k: nat, frontier: seq<string>)
    requires Members(frontier) == Layer(LayoutGraph(nodes), k)
    ensures var g := LayoutGraph(nodes);
            && Placed(g, k) + Members(frontier) == Placed(g, k + 1) <= LayoutIds(nodes)
            && NewlyReady(LayoutDeps(nodes), Placed(g, k), frontier) == Layer(g, k + 1)
            && PlacedAreReady(LayoutDeps(nodes), Placed(g, k), Placed(g, k + 1))
            && Members(frontier) !! Placed(g, k)
            && (frontier != [] ==> Placed(g, k) < Placed(g, k + 1))
  {
    var g := LayoutGraph(nodes);
    LayoutGraphIsClosed(nodes);
    PlacedGrows(g, k + 1, k + 1);
    NextLayer(LayoutDeps(nodes), k, frontier);
    if frontier != [] {
      assert frontier[0] in Members(frontier);
    }
    forall v | v in LayoutDeps(nodes) && v in Placed(g, k + 1)
      ensures Pending(LayoutDeps(nodes)[v], Placed(g, k)) == 0
    {
      ReadyIsPlaced(LayoutDeps(nodes), k, v);
    }
  }

  method PushLayer(ghost nodes: seq<DagNode>, byId: map<string, DagNode>, frontier: seq<string>,
                   layers0: seq<seq<DagNode>>)
    returns (layers: seq<seq<DagNode>>)
    requires byId.Keys == LayoutIds(nodes) && forall v :: v in byId ==> byId[v] == NodeWith(nodes, v)
    requires Distinct(frontier) && Members(frontier) == Layer(LayoutGraph(nodes), |layers0|) && frontier != []
    requires LayersOk(nodes, layers0) && LayersOrdered(nodes, layers0) && Follows(nodes, layers0, frontier)
    ensures LayersOk(nodes, layers) && LayersOrdered(nodes, layers)
    ensures |layers| == |layers0| + 1 && NodeIds(layers[|layers0|]) == frontier
  {
    var layer := LayerNodes(nodes, byId, |layers0|, frontier);
    AddLayer(nodes, layers0, layer);
    AddOrderedLayer(nodes, layers0, layer);
    layers := layers0 + [layer];
  }

  method Advance(ghost nodes: seq<DagNode>, ghost k: nat, byId: map<string, DagNode>,
                 dependents: map<string, seq<string>>, indegree0: map<string, int>,
                 frontier0: seq<string>, placed0: set<string>)
    returns (indegree: map<string, int>, frontier: seq<string>, placed: set<string>)
    requires byId.Keys == LayoutIds(nodes)
    requires Reversed(LayoutDeps(nodes), dependents) && TableAscends(InputOrder(nodes), dependents)
    requires placed0 == Placed(LayoutGraph(nodes), k) && Counted(LayoutDeps(nodes), indegree0, placed0)
    requires Distinct(frontier0) && Members(frontier0) == Layer(LayoutGraph(nodes), k) && frontier0 != []
    ensures placed0 < placed == Placed(LayoutGraph(nodes), k + 1) <= byId.Keys
    ensures Counted(LayoutDeps(nodes), indegree, placed)
    ensures Distinct(frontier) && Members(frontier) == Layer(LayoutGraph(nodes), k + 1)
    ensures InOrder(LayoutDeps(nodes), InputOrder(nodes), frontier0, frontier)
  {
    NextPlaced(nodes, k, frontier0);
    placed := placed0 + set v | v in frontier0;
    indegree, frontier := VisitFrontier(LayoutDeps(nodes), InputOrder(nodes), placed0, frontier0, placed, byId,
                                        dependents, indegree0);
  }

  method Round(ghost nodes: seq<DagNode>, byId: map<string, DagNode>, dependents: map<string, seq<string>>,
               indegree0: map<string, int>, frontier0: seq<string>, placed0: set<string>, layers0: seq<seq<DagNode>>)
    returns (indegree: map<string, int>, frontier: seq<string>, placed: set<string>, layers: seq<seq<DagNode>>)
    requires byId.Keys == LayoutIds(nodes) && forall v :: v in byId ==> byId[v] == NodeWith(nodes, v)
    requires Reversed(LayoutDeps(nodes), dependents) && TableAscends(InputOrder(nodes), dependents)
    requires AtRound(nodes, indegree0, frontier0, placed0, layers0) && frontier0 != []
    ensures AtRound(nodes, indegree, frontier, placed, layers)
    ensures placed0 < placed <= byId.Keys
  {
    layers := PushLayer(nodes, byId, frontier0, layers0);
    indegree, frontier, placed := Advance(nodes, |layers0|, byId, dependents, indegree0, frontier0, placed0);
  }

  method KahnLayers(ghost nodes: seq<DagNode>, byId: map<string, DagNode>, dependents: map<string, seq<string>>,
                    indegree0: map<string, int>, frontier0: seq<string>)
    returns (placed: set<string>, layers: seq<seq<DagNode>>)
    requires byId.Keys == LayoutIds(nodes) && forall v :: v in byId ==> byId[v] == NodeWith(nodes, v)
    requires Reversed(LayoutDeps(nodes), dependents) && TableAscends(InputOrder(nodes), dependents)
    requires AtRound(nodes, indegree0, frontier0, {}, [])
    ensures LayersOk(nodes, layers) && LayersOrdered(nodes, layers) && placed == Placed(LayoutGraph(nodes), |layers|)
    ensures Layer(LayoutGraph(nodes), |layers|) == {}
  {
    var indegree, frontier := indegree0, frontier0;
    placed, layers := {}, [];
    while frontier != []
      invariant AtRound(nodes, indegree, frontier, placed, layers)
      decreases byId.Keys - placed
    {
      indegree, frontier, placed, layers := Round(nodes, byId, dependents, indegree, frontier, placed, layers);
    }
  }

  /** Total on every input; `settled` is the number of layers of nodes that became ready. */
  method LayoutDag(nodes: seq<DagNode>) returns (layers: seq<seq<DagNode>>)
    ensures exists settled: nat ::
              settled <= |layers| && IsLayout(nodes, layers, settled) && LayersOrdered(nodes, layers[..settled])
  {
    var byId, unique := IndexById(nodes);
    FirstsKeepsIds(nodes);
    var indegree, dependents := BuildEdges(nodes, byId, unique);
    var frontier := ReadyAtStart(unique, indegree);
    FirstRound(nodes, indegree, frontier);
    var placed, ready := KahnLayers(nodes, byId, dependents, indegree, frontier);
    ghost var settled := |ready|;
    var unresolved := Unplaced(unique, placed);
    layers := if unresolved != [] then ready + [unresolved] else ready;
    assert layers[..settled] == ready;
    assert IsLayout(nodes, layers, settled);
  }
}
