/** Where the canvas's layering and the backend's agree: the canvas reads less of what a node declares. */
module DagAgreement {
  import opened Wrappers
  import opened DependencyGraph
  import opened StringOrder
  import opened KahnCounting
  import opened WorkflowNodes
  import T = TopologicalSort
  import L = DagLayout
  import D = DagTheorems

  /** The same list as the canvas receives it: only `dependencies` is read there. */
  function View(n: Node): L.DagNode {
    L.DagNode(IdOf(n), if n.dependencies.Names? then Some(n.dependencies.names) else None, n.body)
  }

  ghost function Views(nodes: seq<Node>): seq<L.DagNode> {
    seq(|nodes|, i requires 0 <= i < |nodes| => View(nodes[i]))
  }

  /** The node declares dependencies under the alias `depends_on` only. */
  predicate UsesAlias(n: Node) {
    n.dependencies == Absent && n.dependsOn.Names? && n.dependsOn.names != []
  }

  /** The canvas keeps neither self-dependencies nor what is declared under the alias only. */
  ghost function CanvasGraph(nodes: seq<Node>): Graph
    requires Accepted(nodes)
  {
    map v | v in IdSet(nodes) :: if UsesAlias(NodeOf(nodes, v)) then {} else GraphOfNodes(nodes)[v] - {v}
  }

  lemma ViewIds(nodes: seq<Node>)
    requires Accepted(nodes)
    ensures L.LayoutIds(Views(nodes)) == IdSet(nodes) && L.DistinctIds(Views(nodes))
  {
    forall v | v in IdSet(nodes)
      ensures v in L.LayoutIds(Views(nodes))
    {
      var n := NodeOf(nodes, v);
      var i :| 0 <= i < |nodes| && nodes[i] == n;
      assert Views(nodes)[i] in Views(nodes);
    }
    forall v | v in L.LayoutIds(Views(nodes))
      ensures v in IdSet(nodes)
    {
      var m :| m in Views(nodes) && m.id == v;
      var i :| 0 <= i < |nodes| && Views(nodes)[i] == m;
      assert nodes[i] in nodes;
    }
  }

  lemma {:induction false} DistinctFirsts(nodes: seq<L.DagNode>)
    requires L.DistinctIds(nodes)
    ensures L.Firsts(nodes) == nodes
  {
    if nodes != [] {
      var n := |nodes| - 1;
      DistinctFirsts(nodes[..n]);
      assert nodes == nodes[..n] + [nodes[n]];
    }
  }

  lemma ViewOfNode(nodes: seq<Node>, v: string)
    requires Accepted(nodes) && v in IdSet(nodes)
    ensures v in L.LayoutIds(Views(nodes))
    ensures L.NodeWith(Views(nodes), v) == View(NodeOf(nodes, v))
    ensures L.Raw(View(NodeOf(nodes, v))) == if UsesAlias(NodeOf(nodes, v)) then [] else DepNames(nodes, v)
  {
    ViewIds(nodes);
    DistinctFirsts(Views(nodes));
    var n := NodeOf(nodes, v);
    var i :| 0 <= i < |nodes| && nodes[i] == n;
    assert Views(nodes)[i] in Views(nodes);
    L.NodeWithIsFirst(Views(nodes), Views(nodes)[i]);
  }

  lemma ViewDependencies(nodes: seq<Node>, v: string)
    requires Accepted(nodes) && v in IdSet(nodes)
    ensures v in L.LayoutIds(Views(nodes))
    ensures forall d :: d in L.SurvivingDeps(Views(nodes), v) <==> d in CanvasGraph(nodes)[v]
  {
    var raw := if UsesAlias(NodeOf(nodes, v)) then [] else DepNames(nodes, v);
    ViewIds(nodes);
    ViewOfNode(nodes, v);
    L.NormalizedKeeps(v, raw, IdSet(nodes));
    var n := NodeOf(nodes, v);
    assert n in nodes;
    assert forall d :: d in DepNames(nodes, v) ==> d in IdSet(nodes);
    assert "" !in IdSet(nodes);
    assert GraphOfNodes(nodes)[v] == set d | d in DepNames(nodes, v);
  }

  lemma ViewNode(nodes: seq<Node>, v: string)
    requires Accepted(nodes) && v in IdSet(nodes)
    ensures v in L.LayoutGraph(Views(nodes)) && L.LayoutGraph(Views(nodes))[v] == CanvasGraph(nodes)[v]
  {
    ViewDependencies(nodes, v);
    assert L.LayoutGraph(Views(nodes))[v] == set d | d in L.SurvivingDeps(Views(nodes), v);
  }

  /** The canvas lays out that graph. */
  lemma ViewGraph(nodes: seq<Node>)
    requires Accepted(nodes)
    ensures L.LayoutGraph(Views(nodes)) == CanvasGraph(nodes)
  {
    var h, c := L.LayoutGraph(Views(nodes)), CanvasGraph(nodes);
    ViewIds(nodes);
    assert h.Keys == L.LayoutIds(Views(nodes)) && c.Keys == IdSet(nodes);
    forall v | v in IdSet(nodes)
      ensures h[v] == c[v]
    {
      ViewNode(nodes, v);
    }
    SameGraph(h, c);
  }

  lemma SameGraph(g: Graph, h: Graph)
    requires g.Keys == h.Keys && forall v :: v in g ==> g[v] == h[v]
    ensures g == h
  {
  }

  lemma CanvasIsSubgraph(nodes: seq<Node>)
    requires Accepted(nodes)
    ensures IsSubgraph(CanvasGraph(nodes), GraphOfNodes(nodes))
  {
    GraphIsClosed(nodes);
  }

  // ---- Fewer dependencies

  ghost predicate IsSubgraph(h: Graph, g: Graph) {
    h.Keys == g.Keys && forall v :: v in g ==> h[v] <= g[v]
  }

  lemma {:induction false} FewerDependenciesPlaceMore(g: Graph, h: Graph, k: nat)
    requires IsSubgraph(h, g)
    ensures Placed(g, k) <= Placed(h, k)
  {
    if k > 0 {
      FewerDependenciesPlaceMore(g, h, k - 1);
    }
  }

  lemma NeverPlacedIfStuck(g: Graph, v: string, k: nat)
    requires Closed(g) && v in Placed(g, k)
    ensures !ReachesCycle(g, v)
  {
    var n := if k <= |g.Keys| then |g.Keys| else k;
    PlacedGrows(g, k, n);
    UnplacedReachesCycle(g, v, n);
  }

  /** A node whose dependencies lead to no cycle does not lead to one. */
  lemma FreeDependenciesFree(g: Graph, v: string)
    requires Closed(g) && v in g && forall d :: d in g[v] ==> !ReachesCycle(g, d)
    ensures !ReachesCycle(g, v)
  {
    var n := |g.Keys|;
    forall d | d in g[v]
      ensures d in Placed(g, n)
    {
      UnplacedReachesCycle(g, d, n);
    }
    assert v in Placed(g, n + 1);
    NeverPlacedIfStuck(g, v, n + 1);
  }

  /** Every node that lost a dependency and leads to a cycle leads to one without it. */
  ghost predicate LossesAreHarmless(g: Graph, h: Graph)
    requires IsSubgraph(h, g)
  {
    forall v :: v in g && h[v] != g[v] && ReachesCycle(g, v) ==> ReachesCycle(h, v)
  }

  lemma {:induction false} PlacedIsFree(g: Graph, h: Graph, v: string, k: nat)
    requires Closed(g) && Closed(h) && IsSubgraph(h, g) && LossesAreHarmless(g, h) && v in Placed(h, k)
    ensures !ReachesCycle(g, v)
    decreases k
  {
    NeverPlacedIfStuck(h, v, k);
    if h[v] == g[v] {
      forall d | d in g[v]
        ensures !ReachesCycle(g, d)
      {
        PlacedIsFree(g, h, d, k - 1);
      }
      FreeDependenciesFree(g, v);
    }
  }

  ghost predicate SameStuck(g: Graph, h: Graph) {
    forall v :: v in g ==> (ReachesCycle(g, v) <==> ReachesCycle(h, v))
  }

  /** For every subgraph: the same nodes are stuck exactly when every node that lost a dependency and is stuck stays
      stuck. */
  lemma LossesDecide(g: Graph, h: Graph)
    requires Closed(g) && IsSubgraph(h, g)
    ensures SameStuck(g, h) <==> LossesAreHarmless(g, h)
  {
    var n := |g.Keys|;
    assert Closed(h) by {
      assert forall v :: v in h ==> h[v] <= g[v] <= g.Keys;
    }
    FewerDependenciesPlaceMore(g, h, n);
    if LossesAreHarmless(g, h) {
      forall v | v in g
        ensures ReachesCycle(g, v) <==> ReachesCycle(h, v)
      {
        UnplacedReachesCycle(g, v, n);
        UnplacedReachesCycle(h, v, n);
        if v in Placed(h, n) {
          PlacedIsFree(g, h, v, n);
        }
      }
    }
  }

  // ---- Accepted lists

  ghost predicate SameLayers(a: seq<seq<Node>>, b: seq<seq<L.DagNode>>) {
    |a| == |b| && forall k :: 0 <= k < |a| ==> Members(T.Ids(a[k])) == Members(L.NodeIds(b[k]))
  }

  ghost predicate NoAlias(nodes: seq<Node>) {
    forall n :: n in nodes ==> !UsesAlias(n)
  }

  lemma AcyclicHasNoSelfLoops(g: Graph, v: string)
    requires Acyclic(g) && v in g
    ensures v !in g[v]
  {
    var p := [v, v];
    assert p[0] == v;
    assert v in g[v] ==> IsCycle(g, p);
  }

  lemma KeepsDependencies(nodes: seq<Node>, v: string)
    requires Accepted(nodes) && v in IdSet(nodes) && NoAlias(nodes) && Acyclic(GraphOfNodes(nodes))
    ensures CanvasGraph(nodes)[v] == GraphOfNodes(nodes)[v]
  {
    AcyclicHasNoSelfLoops(GraphOfNodes(nodes), v);
    assert NodeOf(nodes, v) in nodes;
  }

  lemma NothingLost(nodes: seq<Node>)
    requires Accepted(nodes) && NoAlias(nodes) && Acyclic(GraphOfNodes(nodes))
    ensures CanvasGraph(nodes) == GraphOfNodes(nodes)
  {
    var g, h := GraphOfNodes(nodes), CanvasGraph(nodes);
    GraphIsClosed(nodes);
    forall v | v in IdSet(nodes)
      ensures h[v] == g[v]
    {
      KeepsDependencies(nodes, v);
    }
    SameGraph(h, g);
  }

  /** On every list the backend accepts, both algorithms produce the same number of layers with the same ids if and only
      if no node declares dependencies under the alias only. */
  lemma AcceptedListsAgree(nodes: seq<Node>, a: seq<seq<Node>>, b: seq<seq<L.DagNode>>, settled: nat)
    requires Accepted(nodes) && Acyclic(GraphOfNodes(nodes))
    requires T.IsLayering(nodes, a) && settled <= |b| && L.IsLayout(Views(nodes), b, settled)
    ensures SameLayers(a, b) <==> NoAlias(nodes)
  {
    ViewGraph(nodes);
    if NoAlias(nodes) {
      NothingLost(nodes);
      SameHeight(nodes, a, b, settled);
      NothingStuck(nodes, b, settled);
      forall k | 0 <= k < |a|
        ensures Members(T.Ids(a[k])) == Members(L.NodeIds(b[k]))
      {
        assert T.IsLayer(nodes, k, a[k]);
        assert L.IsLayer(Views(nodes), k, b[..settled][k]);
      }
    } else if SameLayers(a, b) {
      var n :| n in nodes && UsesAlias(n);
      AliasMoves(nodes, a, b, settled, n);
    }
  }

  lemma AliasRounds(nodes: seq<Node>, n: Node)
    requires Accepted(nodes) && n in nodes && UsesAlias(n)
    ensures n.id.text in IdSet(nodes)
    ensures n.id.text !in Layer(GraphOfNodes(nodes), 0) && n.id.text in Layer(CanvasGraph(nodes), 0)
  {
    var g, h, v := GraphOfNodes(nodes), CanvasGraph(nodes), n.id.text;
    GraphIsClosed(nodes);
    NodeOfIsTheNode(nodes, n);
    assert g[v] == set d | d in DepNames(nodes, v);
    assert n.dependsOn.names[0] in g[v];
    assert Placed(g, 0) == {} && v !in Placed(g, 1);
    assert h[v] == {} && v in Placed(h, 1);
  }

  /** A node that uses the alias is in the first layer of the canvas, and in a later one of the backend. */
  lemma AliasMoves(nodes: seq<Node>, a: seq<seq<Node>>, b: seq<seq<L.DagNode>>, settled: nat, n: Node)
    requires Accepted(nodes) && T.IsLayering(nodes, a) && n in nodes && UsesAlias(n)
    requires settled <= |b| && L.IsLayout(Views(nodes), b, settled) && L.LayoutGraph(Views(nodes)) == CanvasGraph(nodes)
    ensures a != [] ==> n.id.text !in Members(T.Ids(a[0]))
    ensures b != [] && n.id.text in Members(L.NodeIds(b[0]))
  {
    AliasRounds(nodes, n);
    if a != [] {
      assert T.IsLayer(nodes, 0, a[0]);
    }
    assert settled > 0;
    assert L.IsLayer(Views(nodes), 0, b[..settled][0]);
  }

  lemma SameHeight(nodes: seq<Node>, a: seq<seq<Node>>, b: seq<seq<L.DagNode>>, settled: nat)
    requires Accepted(nodes) && L.LayoutGraph(Views(nodes)) == GraphOfNodes(nodes)
    requires T.IsLayering(nodes, a) && settled <= |b| && L.IsLayout(Views(nodes), b, settled)
    ensures |a| == settled && Placed(L.LayoutGraph(Views(nodes)), settled) == IdSet(nodes)
  {
    if |a| < settled {
      D.LayeringHeight(nodes, a, |a|);
      D.LayoutHeight(Views(nodes), b, settled, |a|);
    } else if settled < |a| {
      D.LayeringHeight(nodes, a, settled);
    }
  }

  lemma NothingStuck(nodes: seq<Node>, b: seq<seq<L.DagNode>>, settled: nat)
    requires Accepted(nodes) && settled <= |b| && L.IsLayout(Views(nodes), b, settled)
    requires Placed(L.LayoutGraph(Views(nodes)), settled) == IdSet(nodes)
    ensures |b| == settled
  {
    ViewIds(nodes);
    L.FirstsKeepsIds(Views(nodes));
    D.NoneUnplaced(L.Firsts(Views(nodes)), IdSet(nodes));
  }

  // ---- Cyclic lists

  /** On a list rejected for cycles, the canvas's fallback layer is exactly the backend's named set if and only if every
      node that depends on itself or uses the alias, and leads to a cycle, leads to one by what the canvas reads. */
  lemma CyclicListsAgree(nodes: seq<Node>, ids: seq<string>, layers: seq<seq<L.DagNode>>, settled: nat)
    requires Accepted(nodes) && T.NamesCyclic(nodes, ids)
    requires settled <= |layers| && L.IsLayout(Views(nodes), layers, settled)
    ensures D.Fallback(layers, settled) == Members(ids) <==> MisreadStayStuck(nodes)
    ensures D.Fallback(layers, settled) == Members(ids) ==> |layers| == settled + 1
  {
    var g, h := GraphOfNodes(nodes), CanvasGraph(nodes);
    GraphIsClosed(nodes);
    NamedIsStuck(nodes, ids);
    ViewFallback(nodes, layers, settled);
    CanvasIsSubgraph(nodes);
    LossesDecide(g, h);
    SetsCompare(g, h, Members(ids), D.Fallback(layers, settled));
    MisreadLose(nodes);
  }

  /** The canvas reads the node's dependencies otherwise than the backend. */
  ghost predicate Misread(nodes: seq<Node>, v: string)
    requires Accepted(nodes) && v in IdSet(nodes)
  {
    UsesAlias(NodeOf(nodes, v)) || v in DepNames(nodes, v)
  }

  ghost predicate MisreadStayStuck(nodes: seq<Node>)
    requires Accepted(nodes)
  {
    forall v :: v in IdSet(nodes) && Misread(nodes, v) && ReachesCycle(GraphOfNodes(nodes), v) ==>
      ReachesCycle(CanvasGraph(nodes), v)
  }

  lemma MisreadLose(nodes: seq<Node>)
    requires Accepted(nodes) && IsSubgraph(CanvasGraph(nodes), GraphOfNodes(nodes))
    ensures LossesAreHarmless(GraphOfNodes(nodes), CanvasGraph(nodes)) <==> MisreadStayStuck(nodes)
  {
    var g, h := GraphOfNodes(nodes), CanvasGraph(nodes);
    forall v | v in IdSet(nodes)
      ensures h[v] != g[v] <==> Misread(nodes, v)
    {
      var n := NodeOf(nodes, v);
      assert g[v] == set d | d in DepNames(nodes, v);
      if UsesAlias(n) {
        assert n.dependsOn.names[0] in g[v];
      }
    }
  }

  lemma SelfLoopReachesCycle(g: Graph, v: string)
    requires v in g && v in g[v]
    ensures ReachesCycle(g, v)
  {
    assert IsCycle(g, [v, v]) && IsWalk(g, [v]);
    assert [v][|[v]| - 1] == [v, v][0];
  }

  /** Without the alias: if and only if every self-dependent node also reaches a longer cycle. */
  lemma SelfLoopsDecide(nodes: seq<Node>)
    requires Accepted(nodes) && NoAlias(nodes)
    ensures MisreadStayStuck(nodes)
            <==> forall v :: v in IdSet(nodes) && v in DepNames(nodes, v) ==> ReachesCycle(CanvasGraph(nodes), v)
  {
    forall v | v in IdSet(nodes)
      ensures Misread(nodes, v) <==> v in DepNames(nodes, v)
      ensures v in DepNames(nodes, v) ==> ReachesCycle(GraphOfNodes(nodes), v)
    {
      assert NodeOf(nodes, v) in nodes;
      if v in DepNames(nodes, v) {
        SelfLoopReachesCycle(GraphOfNodes(nodes), v);
      }
    }
  }

  lemma NamedIsStuck(nodes: seq<Node>, ids: seq<string>)
    requires Accepted(nodes) && T.NamesCyclic(nodes, ids)
    ensures forall v :: v in Members(ids) <==> v in GraphOfNodes(nodes) && ReachesCycle(GraphOfNodes(nodes), v)
    ensures Members(ids) != {}
  {
    GraphIsClosed(nodes);
    assert ids[0] in Members(ids);
  }

  lemma ViewFallback(nodes: seq<Node>, layers: seq<seq<L.DagNode>>, settled: nat)
    requires Accepted(nodes) && settled <= |layers| && L.IsLayout(Views(nodes), layers, settled)
    ensures |layers| <= settled + 1
    ensures forall v :: v in D.Fallback(layers, settled) <==>
              v in GraphOfNodes(nodes) && ReachesCycle(CanvasGraph(nodes), v)
  {
    GraphIsClosed(nodes);
    ViewIds(nodes);
    ViewGraph(nodes);
    D.FallbackIsStuck(Views(nodes), layers, settled);
  }

  lemma SetsCompare(g: Graph, h: Graph, named: set<string>, fallback: set<string>)
    requires forall v :: v in named <==> v in g && ReachesCycle(g, v)
    requires forall v :: v in fallback <==> v in g && ReachesCycle(h, v)
    ensures fallback == named <==> SameStuck(g, h)
  {
  }

  // ---- The alias makes the difference

  lemma AllIdle(h: Graph)
    requires forall v :: v in h ==> h[v] == {}
    ensures Placed(h, 1) == h.Keys && Layer(h, 0) == h.Keys && Layer(h, 1) == {}
  {
    assert Placed(h, 0) == {};
    assert Placed(h, 2) == h.Keys;
  }

  lemma ViewNames(nodes: seq<L.DagNode>)
    requires L.DistinctIds(nodes)
    ensures Distinct(L.NodeIds(nodes)) && Members(L.NodeIds(nodes)) == L.LayoutIds(nodes)
  {
    var names := L.NodeIds(nodes);
    forall v | v in L.LayoutIds(nodes)
      ensures v in names
    {
      var n :| n in nodes && n.id == v;
      var i :| 0 <= i < |nodes| && nodes[i] == n;
      assert names[i] == v;
    }
    forall v | v in names
      ensures v in L.LayoutIds(nodes)
    {
      var i :| 0 <= i < |names| && names[i] == v;
      assert nodes[i] in nodes;
    }
  }

  /** Nodes without surviving dependencies are one layer. */
  lemma OneLayer(nodes: seq<L.DagNode>)
    requires nodes != [] && L.DistinctIds(nodes)
    requires forall v :: v in L.LayoutGraph(nodes) ==> L.LayoutGraph(nodes)[v] == {}
    ensures L.IsLayout(nodes, [nodes], 1)
  {
    var h := L.LayoutGraph(nodes);
    L.LayoutGraphIsClosed(nodes);
    AllIdle(h);
    DistinctFirsts(nodes);
    ViewNames(nodes);
    D.NoneUnplaced(nodes, Placed(h, 1));
    LayoutOfOne(nodes);
  }

  lemma LayoutOfOne(nodes: seq<L.DagNode>)
    requires nodes != [] && L.IsLayer(nodes, 0, nodes) && Layer(L.LayoutGraph(nodes), 1) == {}
    requires L.Unplaced(L.Firsts(nodes), Placed(L.LayoutGraph(nodes), 1)) == []
    ensures L.IsLayout(nodes, [nodes], 1)
  {
    assert [nodes][..1] == [nodes];
  }

  /** The canvas reads no dependency of the node. */
  predicate LooksIdle(n: Node) {
    n.dependencies == Absent || n.dependencies == Names([])
  }

  /** A list that declares everything under the alias is shown as one layer, whatever it declares. */
  lemma AliasOnlyIsOneLayer(nodes: seq<Node>)
    requires Accepted(nodes) && nodes != [] && forall n :: n in nodes ==> LooksIdle(n)
    ensures L.IsLayout(Views(nodes), [Views(nodes)], 1) && D.Fallback([Views(nodes)], 1) == {}
  {
    ViewIds(nodes);
    ViewGraph(nodes);
    forall v | v in IdSet(nodes)
      ensures CanvasGraph(nodes)[v] == {}
    {
      IdleNode(nodes, v);
    }
    OneLayer(Views(nodes));
  }

  lemma IdleNode(nodes: seq<Node>, v: string)
    requires Accepted(nodes) && v in IdSet(nodes) && forall n :: n in nodes ==> LooksIdle(n)
    ensures CanvasGraph(nodes)[v] == {}
  {
    var n := NodeOf(nodes, v);
    assert n in nodes && LooksIdle(n);
    if !UsesAlias(n) {
      assert DepNames(nodes, v) == [];
      assert GraphOfNodes(nodes)[v] == set d | d in DepNames(nodes, v);
    }
  }

  /** Two nodes that declare what they depend on under the alias. */
  ghost predicate IsPair(nodes: seq<Node>, x: string, y: string, xs: seq<string>, ys: seq<string>) {
    && nodes == [Node(Text(x), Absent, Names(xs), ""), Node(Text(y), Absent, Names(ys), "")]
    && x != y && x != "" && y != "" && forall d :: d in xs || d in ys ==> d == x || d == y
  }

  lemma PairAccepted(nodes: seq<Node>, x: string, y: string, xs: seq<string>, ys: seq<string>)
    requires IsPair(nodes, x, y, xs, ys)
    ensures Accepted(nodes) && IdSet(nodes) == {x, y}
    ensures forall n :: n in nodes ==> LooksIdle(n)
  {
    assert nodes[0] in nodes && nodes[1] in nodes;
    assert forall n :: n in nodes ==> n == nodes[0] || n == nodes[1];
  }

  lemma PairGraph(nodes: seq<Node>, x: string, y: string, xs: seq<string>, ys: seq<string>)
    requires IsPair(nodes, x, y, xs, ys) && Accepted(nodes) && IdSet(nodes) == {x, y}
    ensures GraphOfNodes(nodes).Keys == {x, y}
    ensures GraphOfNodes(nodes)[x] == (set d | d in xs) && GraphOfNodes(nodes)[y] == (set d | d in ys)
  {
    NodeOfIsTheNode(nodes, nodes[0]);
    NodeOfIsTheNode(nodes, nodes[1]);
  }

  lemma ChainRounds(g: Graph, x: string, y: string)
    requires x != y && g.Keys == {x, y} && g[x] == {} && g[y] == {x}
    ensures Layer(g, 0) == {x} && Layer(g, 1) == {y} && Placed(g, 2) == {x, y}
  {
    assert Placed(g, 0) == {} && Placed(g, 1) == {x};
    assert Placed(g, 2) == {x, y};
  }

  lemma SingleLayer(nodes: seq<Node>, k: nat, n: Node)
    requires Accepted(nodes) && n in nodes && Layer(GraphOfNodes(nodes), k) == {n.id.text}
    ensures T.IsLayer(nodes, k, [n])
  {
    assert T.Ids([n]) == [n.id.text];
  }

  lemma LayeringOfTwo(nodes: seq<Node>, a: Node, b: Node)
    requires Accepted(nodes) && T.IsLayer(nodes, 0, [a]) && T.IsLayer(nodes, 1, [b])
    requires Placed(GraphOfNodes(nodes), 2) == IdSet(nodes)
    ensures T.IsLayering(nodes, [[a], [b]])
  {
  }

  lemma PairLayering(nodes: seq<Node>, a: Node, b: Node, x: string, y: string)
    requires Accepted(nodes) && IdSet(nodes) == {x, y} && x != y && a in nodes && b in nodes
    requires a.id == Text(x) && b.id == Text(y)
    requires GraphOfNodes(nodes)[x] == {} && GraphOfNodes(nodes)[y] == {x}
    ensures T.IsLayering(nodes, [[a], [b]])
  {
    GraphIsClosed(nodes);
    ChainRounds(GraphOfNodes(nodes), x, y);
    SingleLayer(nodes, 0, a);
    SingleLayer(nodes, 1, b);
    LayeringOfTwo(nodes, a, b);
  }

  /** For the backend the second node follows the first, the canvas shows them side by side. */
  lemma AliasHidesLayers(nodes: seq<Node>, x: string, y: string)
    requires IsPair(nodes, x, y, [], [x])
    ensures Accepted(nodes) && T.IsLayering(nodes, [[nodes[0]], [nodes[1]]])
    ensures L.IsLayout(Views(nodes), [Views(nodes)], 1)
  {
    PairAccepted(nodes, x, y, [], [x]);
    PairGraph(nodes, x, y, [], [x]);
    PairLayering(nodes, nodes[0], nodes[1], x, y);
    AliasOnlyIsOneLayer(nodes);
  }

  lemma LoopReachesCycle(g: Graph, x: string, y: string)
    requires x in g && y in g && y in g[x] && x in g[y]
    ensures ReachesCycle(g, x)
  {
    assert IsCycle(g, [x, y, x]) && IsWalk(g, [x]);
    assert [x][|[x]| - 1] == [x, y, x][0];
  }

  lemma LoopIsNamed(nodes: seq<Node>, x: string, y: string)
    requires Accepted(nodes) && IdSet(nodes) == {x, y} && x != y && Leq(x, y)
    requires GraphOfNodes(nodes)[x] == {y} && GraphOfNodes(nodes)[y] == {x}
    ensures T.NamesCyclic(nodes, [x, y])
  {
    GraphIsClosed(nodes);
    LoopReachesCycle(GraphOfNodes(nodes), x, y);
    LoopReachesCycle(GraphOfNodes(nodes), y, x);
  }

  /** The two depend on each other and the backend names both, while the canvas shows no cycle. */
  lemma AliasHidesCycle(nodes: seq<Node>, x: string, y: string)
    requires IsPair(nodes, x, y, [y], [x]) && Leq(x, y)
    ensures Accepted(nodes) && T.NamesCyclic(nodes, [x, y])
    ensures L.IsLayout(Views(nodes), [Views(nodes)], 1) && D.Fallback([Views(nodes)], 1) == {}
  {
    PairAccepted(nodes, x, y, [y], [x]);
    PairGraph(nodes, x, y, [y], [x]);
    LoopIsNamed(nodes, x, y);
    AliasOnlyIsOneLayer(nodes);
  }
}
