/** What the two layering algorithms mean, and where they agree. */
module DagTheorems {
  import opened Wrappers
  import opened DependencyGraph
  import opened StringOrder
  import opened KahnCounting
  import opened WorkflowNodes
  import T = TopologicalSort
  import L = DagLayout
  import O = LayoutOrder

  // ---- The backend's layering is canonical

  lemma LayeringHeight(nodes: seq<Node>, layers: seq<seq<Node>>, k: nat)
    requires Accepted(nodes) && T.IsLayering(nodes, layers)
    ensures k < |layers| ==> Layer(GraphOfNodes(nodes), k) != {}
    ensures k >= |layers| ==> Layer(GraphOfNodes(nodes), k) == {}
  {
    GraphIsClosed(nodes);
    if k < |layers| {
      assert T.Ids(layers[k])[0] in Members(T.Ids(layers[k]));
    } else {
      PlacedGrows(GraphOfNodes(nodes), |layers|, k);
      PlacedGrows(GraphOfNodes(nodes), k, k + 1);
    }
  }

  /** Every node is in exactly one layer, at one place, and the layer's index is the length of the node's longest
      dependency chain. */
  lemma LayerIndexIsLongestChain(nodes: seq<Node>, layers: seq<seq<Node>>, n: Node) returns (k: nat)
    requires Accepted(nodes) && T.IsLayering(nodes, layers) && n in nodes
    ensures k < |layers| && n in layers[k]
    ensures forall l :: 0 <= l < |layers| && n in layers[l] ==> l == k
    ensures exists p :: IsWalk(GraphOfNodes(nodes), p) && p[0] == n.id.text && |p| == k + 1
    ensures forall p :: IsWalk(GraphOfNodes(nodes), p) && p[0] == n.id.text ==> |p| <= k + 1
  {
    var g, v := GraphOfNodes(nodes), n.id.text;
    GraphIsClosed(nodes);
    NodeOfIsTheNode(nodes, n);
    k := FirstRound(g, v, |layers|);
    LayerIsLongestChain(g, v, k);
    MemberOfLayer(nodes, layers, k, n);
    forall l | 0 <= l < |layers| && n in layers[l]
      ensures l == k
    {
      MemberOfLayer(nodes, layers, l, n);
      LayersAreDisjoint(g, v, k, l);
    }
  }

  lemma MemberOfLayer(nodes: seq<Node>, layers: seq<seq<Node>>, k: nat, n: Node)
    requires Accepted(nodes) && T.LayersOk(nodes, layers) && k < |layers| && n in nodes
    ensures n in layers[k] <==> n.id.text in Layer(GraphOfNodes(nodes), k)
  {
    var ids := T.Ids(layers[k]);
    if n in layers[k] {
      var i :| 0 <= i < |layers[k]| && layers[k][i] == n;
      assert ids[i] in Members(ids);
    }
    if n.id.text in Members(ids) {
      var i :| 0 <= i < |ids| && ids[i] == n.id.text;
      NodeOfIsTheNode(nodes, n);
      NodeOfIsTheNode(nodes, layers[k][i]);
    }
  }

  lemma LayerIsUnique(a: seq<Node>, b: seq<Node>, k: nat, la: seq<Node>, lb: seq<Node>)
    requires multiset(a) == multiset(b) && Accepted(a) && Accepted(b)
    requires T.IsLayer(a, k, la) && T.IsLayer(b, k, lb)
    ensures la == lb
  {
    PermutationKeepsGraph(a, b);
    forall x
      ensures x in T.Ids(la) <==> x in T.Ids(lb)
    {
      assert x in Members(T.Ids(la)) <==> x in Members(T.Ids(lb));
    }
    AscendingIsUnique(T.Ids(la), T.Ids(lb));
    forall i | 0 <= i < |la|
      ensures la[i] == lb[i]
    {
      assert T.Ids(la)[i] == T.Ids(lb)[i];
      NodeOfIsTheNode(a, la[i]);
      NodeOfIsTheNode(b, lb[i]);
    }
  }

  /** The whole result is the same for every permutation of the input list: the same layering ... */
  lemma LayeringIgnoresInputOrder(a: seq<Node>, b: seq<Node>, la: seq<seq<Node>>, lb: seq<seq<Node>>)
    requires multiset(a) == multiset(b) && Accepted(a) && Accepted(b)
    requires T.IsLayering(a, la)
    requires T.IsLayering(b, lb)
    ensures la == lb
  {
    PermutationKeepsGraph(a, b);
    if |la| < |lb| {
      LayeringHeight(a, la, |la|);
      LayeringHeight(b, lb, |la|);
    } else if |lb| < |la| {
      LayeringHeight(a, la, |lb|);
      LayeringHeight(b, lb, |lb|);
    }
    forall k | 0 <= k < |la|
      ensures la[k] == lb[k]
    {
      LayerIsUnique(a, b, k, la[k], lb[k]);
    }
  }

  /** ... or the same cycle error. */
  lemma CycleErrorIgnoresInputOrder(a: seq<Node>, b: seq<Node>, ia: seq<string>, ib: seq<string>)
    requires multiset(a) == multiset(b) && Accepted(a) && Accepted(b)
    requires T.NamesCyclic(a, ia)
    requires T.NamesCyclic(b, ib)
    ensures ia == ib
  {
    PermutationKeepsGraph(a, b);
    AscendingIsUnique(ia, ib);
  }

  // ---- The canvas's layering is total

  /** Every id is placed, as its first node ... */
  lemma LayoutPlacesEveryId(nodes: seq<L.DagNode>, layers: seq<seq<L.DagNode>>, settled: nat, v: string)
    returns (k: nat, i: nat)
    requires settled <= |layers| && L.IsLayout(nodes, layers, settled) && v in L.LayoutIds(nodes)
    ensures k < |layers| && i < |layers[k]| && layers[k][i] == L.NodeWith(nodes, v)
  {
    var g := L.LayoutGraph(nodes);
    L.LayoutGraphIsClosed(nodes);
    if v in Placed(g, settled) {
      k := FirstRound(g, v, settled);
      assert L.IsLayer(nodes, k, layers[..settled][k]);
      i := PlaceInLayer(nodes, layers[k], k, v);
    } else {
      k := settled;
      i := PlaceInStuck(nodes, Placed(g, settled), v);
    }
  }

  lemma PlacedInLayer(nodes: seq<L.DagNode>, layer: seq<L.DagNode>, l: nat, j: nat)
    requires L.IsLayer(nodes, l, layer) && j < |layer|
    ensures layer[j].id in Layer(L.LayoutGraph(nodes), l) && L.DistinctIds(layer)
  {
    assert L.NodeIds(layer)[j] in Members(L.NodeIds(layer));
    forall a, b | 0 <= a < b < |layer|
      ensures layer[a].id != layer[b].id
    {
      assert L.NodeIds(layer)[a] != L.NodeIds(layer)[b];
    }
  }

  lemma WhatIsPlaced(nodes: seq<L.DagNode>, layers: seq<seq<L.DagNode>>, settled: nat, l: nat, j: nat)
    requires settled <= |layers| && L.IsLayout(nodes, layers, settled) && l < |layers| && j < |layers[l]|
    ensures l < settled ==> layers[l][j].id in Layer(L.LayoutGraph(nodes), l)
                            && layers[l][j].id in Placed(L.LayoutGraph(nodes), settled)
    ensures l >= settled ==> l == settled && layers[l][j].id !in Placed(L.LayoutGraph(nodes), settled)
    ensures L.DistinctIds(layers[l])
  {
    if l < settled {
      assert L.IsLayer(nodes, l, layers[..settled][l]);
      PlacedInLayer(nodes, layers[l], l, j);
      PlacedGrows(L.LayoutGraph(nodes), l + 1, settled);
    } else {
      UnplacedKeeps(L.Firsts(nodes), Placed(L.LayoutGraph(nodes), settled));
      L.FirstsKeepsIds(nodes);
      assert layers[l] == L.Unplaced(L.Firsts(nodes), Placed(L.LayoutGraph(nodes), settled));
      assert layers[l][j] in layers[l];
    }
  }

  /** ... and no id is placed twice. */
  lemma LayoutPlacesNoIdTwice(nodes: seq<L.DagNode>, layers: seq<seq<L.DagNode>>, settled: nat,
                              k: nat, i: nat, l: nat, j: nat)
    requires settled <= |layers| && L.IsLayout(nodes, layers, settled)
    requires k < |layers| && i < |layers[k]| && l < |layers| && j < |layers[l]|
    requires layers[k][i].id == layers[l][j].id
    ensures k == l && i == j
  {
    WhatIsPlaced(nodes, layers, settled, k, i);
    WhatIsPlaced(nodes, layers, settled, l, j);
    if k < settled && l < settled {
      LayersAreDisjoint(L.LayoutGraph(nodes), layers[k][i].id, k, l);
    }
  }

  lemma PlaceInLayer(nodes: seq<L.DagNode>, layer: seq<L.DagNode>, k: nat, v: string) returns (i: nat)
    requires v in L.LayoutIds(nodes) && L.IsLayer(nodes, k, layer) && v in Layer(L.LayoutGraph(nodes), k)
    ensures i < |layer| && layer[i] == L.NodeWith(nodes, v)
  {
    i :| 0 <= i < |L.NodeIds(layer)| && L.NodeIds(layer)[i] == v;
    L.NodeWithIsFirst(nodes, layer[i]);
  }

  lemma PlaceInStuck(nodes: seq<L.DagNode>, placed: set<string>, v: string) returns (i: nat)
    requires v in L.LayoutIds(nodes) && v !in placed
    ensures var stuck := L.Unplaced(L.Firsts(nodes), placed); i < |stuck| && stuck[i] == L.NodeWith(nodes, v)
  {
    var n := L.NodeWith(nodes, v);
    UnplacedKeeps(L.Firsts(nodes), placed);
    assert n in L.Unplaced(L.Firsts(nodes), placed);
    i :| 0 <= i < |L.Unplaced(L.Firsts(nodes), placed)| && L.Unplaced(L.Firsts(nodes), placed)[i] == n;
  }

  lemma NewIdIsDistinct(all: seq<L.DagNode>, some: seq<L.DagNode>, n: L.DagNode)
    requires L.DistinctIds(all + [n]) && L.DistinctIds(some) && forall m :: m in some ==> m in all
    ensures L.DistinctIds(some + [n])
  {
    forall i | 0 <= i < |some|
      ensures some[i].id != n.id
    {
      assert some[i] in all;
      var j :| 0 <= j < |all| && all[j] == some[i];
      assert (all + [n])[j].id != (all + [n])[|all|].id;
    }
  }

  lemma {:induction false} UnplacedKeeps(nodes: seq<L.DagNode>, placed: set<string>)
    ensures forall n :: n in L.Unplaced(nodes, placed) <==> n in nodes && n.id !in placed
    ensures L.DistinctIds(nodes) ==> L.DistinctIds(L.Unplaced(nodes, placed))
  {
    if nodes != [] {
      var n := |nodes| - 1;
      UnplacedKeeps(nodes[..n], placed);
      assert nodes == nodes[..n] + [nodes[n]];
      if nodes[n].id !in placed && L.DistinctIds(nodes) {
        NewIdIsDistinct(nodes[..n], L.Unplaced(nodes[..n], placed), nodes[n]);
      }
    }
  }

  /** A surviving dependency of a node outside the fallback layer is in a strictly earlier layer. */
  lemma LayoutDependenciesAreEarlier(nodes: seq<L.DagNode>, layers: seq<seq<L.DagNode>>, settled: nat,
                                     k: nat, i: nat, d: string) returns (j: nat, place: nat)
    requires settled <= |layers| && L.IsLayout(nodes, layers, settled)
    requires k < settled && i < |layers[k]| && d != "" && d != layers[k][i].id && d in L.LayoutIds(nodes)
    requires d in L.Raw(layers[k][i])
    ensures j < k && place < |layers[j]| && layers[j][place] == L.NodeWith(nodes, d)
  {
    var g, n := L.LayoutGraph(nodes), layers[k][i];
    L.LayoutGraphIsClosed(nodes);
    assert L.IsLayer(nodes, k, layers[..settled][k]);
    assert L.NodeIds(layers[k])[i] in Members(L.NodeIds(layers[k]));
    L.NodeWithIsFirst(nodes, n);
    j := FirstRound(g, d, k);
    assert L.IsLayer(nodes, j, layers[..settled][j]);
    place := PlaceInLayer(nodes, layers[j], j, d);
  }

  // ---- What never becomes ready

  lemma {:induction false} NoneUnplaced(nodes: seq<L.DagNode>, placed: set<string>)
    requires L.LayoutIds(nodes) <= placed
    ensures L.Unplaced(nodes, placed) == []
  {
    if nodes != [] {
      assert nodes[|nodes| - 1].id in L.LayoutIds(nodes);
      assert L.LayoutIds(nodes[..|nodes| - 1]) <= L.LayoutIds(nodes);
      NoneUnplaced(nodes[..|nodes| - 1], placed);
    }
  }

  lemma LayoutHeight(nodes: seq<L.DagNode>, b: seq<seq<L.DagNode>>, settled: nat, k: nat)
    requires settled <= |b| && L.IsLayout(nodes, b, settled) && k < settled
    ensures Layer(L.LayoutGraph(nodes), k) != {}
  {
    assert b[..settled][k] != [] && L.IsLayer(nodes, k, b[..settled][k]);
    PlacedInLayer(nodes, b[k], k, 0);
  }

  /** The ids of the layer after the `settled` ready ones, if there is one. */
  ghost function Fallback(layers: seq<seq<L.DagNode>>, settled: nat): set<string> {
    if |layers| > settled then Members(L.NodeIds(layers[settled])) else {}
  }

  lemma StuckId(nodes: seq<L.DagNode>, placed: set<string>, v: string)
    ensures v in L.NodeIds(L.Unplaced(L.Firsts(nodes), placed)) <==> v in L.LayoutIds(nodes) && v !in placed
  {
    var stuck := L.Unplaced(L.Firsts(nodes), placed);
    UnplacedKeeps(L.Firsts(nodes), placed);
    L.FirstsKeepsIds(nodes);
    if v in L.NodeIds(stuck) {
      var i :| 0 <= i < |stuck| && L.NodeIds(stuck)[i] == v;
      assert stuck[i] in L.Firsts(nodes) && v in L.LayoutIds(L.Firsts(nodes));
    }
    if v in L.LayoutIds(nodes) && v !in placed {
      var i := PlaceInStuck(nodes, placed, v);
      assert L.NodeIds(stuck)[i] == v;
    }
  }

  /** The fallback layer holds exactly the nodes stuck behind a cycle of surviving dependencies. */
  lemma FallbackIsStuck(nodes: seq<L.DagNode>, layers: seq<seq<L.DagNode>>, settled: nat)
    requires settled <= |layers| && L.IsLayout(nodes, layers, settled)
    ensures |layers| <= settled + 1
    ensures forall v ::
              v in Fallback(layers, settled) <==> v in L.LayoutIds(nodes) && ReachesCycle(L.LayoutGraph(nodes), v)
  {
    var g := L.LayoutGraph(nodes);
    var n := EmptyLayerSettles(g, settled);
    L.LayoutGraphIsClosed(nodes);
    forall v
      ensures v in Fallback(layers, settled) <==> v in L.LayoutIds(nodes) && ReachesCycle(g, v)
    {
      StuckId(nodes, Placed(g, settled), v);
      if v in L.LayoutIds(nodes) {
        UnplacedReachesCycle(g, v, n);
      }
    }
  }

  // ---- The canvas's layering is determined

  lemma SameSettled(nodes: seq<L.DagNode>, a: seq<seq<L.DagNode>>, m: nat, b: seq<seq<L.DagNode>>, n: nat)
    requires m <= |a| && L.IsLayout(nodes, a, m) && n <= |b| && L.IsLayout(nodes, b, n)
    ensures m == n
  {
    if m < n {
      LayoutHeight(nodes, b, n, m);
    } else if n < m {
      LayoutHeight(nodes, a, m, n);
    }
  }

  /** Layers of the same rank that follow the same layers are the same. */
  lemma SameLayer(nodes: seq<L.DagNode>, before: seq<seq<L.DagNode>>, k: nat, la: seq<L.DagNode>, lb: seq<L.DagNode>)
    requires L.IsLayer(nodes, k, la) && L.Follows(nodes, before, L.NodeIds(la))
    requires L.IsLayer(nodes, k, lb) && L.Follows(nodes, before, L.NodeIds(lb))
    ensures la == lb
  {
    var deps, order := L.LayoutDeps(nodes), L.InputOrder(nodes);
    var frontier := if before == [] then [] else L.NodeIds(before[|before| - 1]);
    assert O.InOrder(deps, order, frontier, L.NodeIds(la)) && O.InOrder(deps, order, frontier, L.NodeIds(lb));
    forall x
      ensures x in L.NodeIds(la) <==> x in L.NodeIds(lb)
    {
      assert x in Members(L.NodeIds(la)) <==> x in Members(L.NodeIds(lb));
    }
    O.OrderIsUnique(deps, order, frontier, L.NodeIds(la), L.NodeIds(lb));
    forall i | 0 <= i < |la|
      ensures la[i] == lb[i]
    {
      assert L.NodeIds(la)[i] == L.NodeIds(lb)[i];
      L.NodeWithIsFirst(nodes, la[i]);
      L.NodeWithIsFirst(nodes, lb[i]);
    }
  }

  ghost predicate IsReady(nodes: seq<L.DagNode>, a: seq<seq<L.DagNode>>) {
    L.LayersOk(nodes, a) && L.LayersOrdered(nodes, a)
  }

  lemma {:induction false} SameReadyLayers(nodes: seq<L.DagNode>, a: seq<seq<L.DagNode>>, b: seq<seq<L.DagNode>>)
    requires |a| == |b| && IsReady(nodes, a) && IsReady(nodes, b)
    ensures a == b
    decreases |a|
  {
    if a != [] {
      var k := |a| - 1;
      OrderedFront(nodes, a);
      OrderedFront(nodes, b);
      SameReadyLayers(nodes, a[..k], b[..k]);
      SameLast(nodes, a, b);
    }
  }

  lemma SameLast(nodes: seq<L.DagNode>, a: seq<seq<L.DagNode>>, b: seq<seq<L.DagNode>>)
    requires a != [] && |a| == |b| && a[..|a| - 1] == b[..|b| - 1]
    requires LastFollows(nodes, a) && LastFollows(nodes, b)
    ensures a == b
  {
    var k := |a| - 1;
    SameLayer(nodes, a[..k], k, a[k], b[k]);
    assert a == a[..k] + [a[k]] && b == b[..k] + [b[k]];
  }

  ghost predicate LastFollows(nodes: seq<L.DagNode>, a: seq<seq<L.DagNode>>)
    requires a != []
  {
    var k := |a| - 1;
    L.IsLayer(nodes, k, a[k]) && L.Follows(nodes, a[..k], L.NodeIds(a[k]))
  }

  lemma OrderedFront(nodes: seq<L.DagNode>, a: seq<seq<L.DagNode>>)
    requires a != [] && IsReady(nodes, a)
    ensures IsReady(nodes, a[..|a| - 1]) && LastFollows(nodes, a)
  {
    var front := a[..|a| - 1];
    forall j | 0 <= j < |front|
      ensures L.Follows(nodes, front[..j], L.NodeIds(front[j]))
    {
      assert front[..j] == a[..j];
    }
  }

  /** What `layoutDag` promises fixes its result, the order inside each layer included. */
  lemma LayoutIsDetermined(nodes: seq<L.DagNode>, a: seq<seq<L.DagNode>>, m: nat, b: seq<seq<L.DagNode>>, n: nat)
    requires m <= |a| && L.IsLayout(nodes, a, m) && L.LayersOrdered(nodes, a[..m])
    requires n <= |b| && L.IsLayout(nodes, b, n) && L.LayersOrdered(nodes, b[..n])
    ensures a == b
  {
    SameSettled(nodes, a, m, b, n);
    SameReadyLayers(nodes, a[..m], b[..n]);
  }
}
