/** Which nodes and dependencies the canvas keeps, by their places in the input. */
module LayoutMeaning {
  import opened Wrappers
  import opened DependencyGraph
  import opened KahnCounting
  import opened LayoutOrder
  import opened DagLayout

  /** `kept` are the elements of `s` at these places, in the order of `s`. */
  ghost predicate KeptAt<T(!new)>(s: seq<T>, kept: seq<T>, places: seq<nat>) {
    && |places| == |kept|
    && (forall k, l :: 0 <= k < l < |places| ==> places[k] < places[l])
    && forall k :: 0 <= k < |places| ==> places[k] < |s| && s[places[k]] == kept[k]
  }

  lemma KeepLast<T(!new)>(s: seq<T>, kept: seq<T>, before: seq<nat>, x: T, keep: bool) returns (places: seq<nat>)
    requires KeptAt(s, kept, before)
    ensures places == before + if keep then [|s|] else []
    ensures KeptAt(s + [x], kept + if keep then [x] else [], places)
    ensures forall i: nat :: i in places <==> i in before || (keep && i == |s|)
  {
    places := before + if keep then [|s|] else [];
  }

  predicate IsFirst(nodes: seq<DagNode>, i: nat)
    requires i < |nodes|
  {
    forall j :: 0 <= j < i ==> nodes[j].id != nodes[i].id
  }

  /** Of nodes with one id the first is kept, and the kept ones keep their order. */
  lemma {:induction false} FirstsExactly(nodes: seq<DagNode>) returns (places: seq<nat>)
    ensures KeptAt(nodes, Firsts(nodes), places)
    ensures forall i: nat :: i < |nodes| ==> (i in places <==> IsFirst(nodes, i))
  {
    if nodes == [] {
      places := [];
    } else {
      var front, last := nodes[..|nodes| - 1], nodes[|nodes| - 1];
      var before := FirstsExactly(front);
      assert nodes == front + [last];
      places := KeepLast(front, Firsts(front), before, last, last.id !in LayoutIds(front));
      forall i: nat | i < |front|
        ensures IsFirst(nodes, i) <==> IsFirst(front, i)
      {
      }
      assert IsFirst(nodes, |front|) <==> last.id !in LayoutIds(front);
    }
  }

  /** A dependency counts if it is not empty, not the node itself, the id of some node, and named for the first time. */
  ghost predicate Survives(id: string, raw: seq<string>, ids: set<string>, i: nat)
    requires i < |raw|
  {
    raw[i] != "" && raw[i] != id && raw[i] in ids && forall j :: 0 <= j < i ==> raw[j] != raw[i]
  }

  /** The dependencies of a node that count are kept in their order. */
  lemma {:induction false} NormalizedExactly(id: string, raw: seq<string>, ids: set<string>)
    returns (places: seq<nat>)
    ensures KeptAt(raw, Normalized(id, raw, ids), places)
    ensures forall i: nat :: i < |raw| ==> (i in places <==> Survives(id, raw, ids, i))
  {
    if raw == [] {
      places := [];
    } else {
      var front, last := raw[..|raw| - 1], raw[|raw| - 1];
      var before := NormalizedExactly(id, front, ids);
      var kept := Normalized(id, front, ids);
      assert raw == front + [last];
      places := KeepLast(front, kept, before, last, last != "" && last != id && last in ids && last !in kept);
      NormalizedKeeps(id, front, ids);
      forall i: nat | i < |front|
        ensures Survives(id, raw, ids, i) <==> Survives(id, front, ids, i)
      {
      }
      assert last in front <==> exists j :: 0 <= j < |front| && raw[j] == last;
    }
  }

  /** The last layer holds the nodes that were not placed, in input order. */
  lemma {:induction false} UnplacedExactly(nodes: seq<DagNode>, placed: set<string>) returns (places: seq<nat>)
    ensures KeptAt(nodes, Unplaced(nodes, placed), places)
    ensures forall i: nat :: i < |nodes| ==> (i in places <==> nodes[i].id !in placed)
  {
    if nodes == [] {
      places := [];
    } else {
      var front, last := nodes[..|nodes| - 1], nodes[|nodes| - 1];
      var before := UnplacedExactly(front, placed);
      assert nodes == front + [last];
      places := KeepLast(front, Unplaced(front, placed), before, last, last.id !in placed);
    }
  }

  // ---- The order inside a layer

  /** Node `i` names the id of another node as a dependency. */
  ghost predicate DependsOn(nodes: seq<DagNode>, i: nat, d: string)
    requires i < |nodes|
  {
    && nodes[i].dependencies.Some? && d in nodes[i].dependencies.value && d != "" && d != nodes[i].id
    && exists j :: 0 <= j < |nodes| && nodes[j].id == d
  }

  /** Place `p` of the layer is the last at which a dependency of node `i` stands. */
  ghost predicate LastDependency(nodes: seq<DagNode>, i: nat, layer: seq<DagNode>, p: nat)
    requires i < |nodes|
  {
    && p < |layer| && DependsOn(nodes, i, layer[p].id)
    && forall q :: p < q < |layer| ==> !DependsOn(nodes, i, layer[q].id)
  }

  lemma {:induction false} ReleasedMeans(ds: seq<string>, frontier: seq<string>)
    ensures var n := Released(ds, frontier);
            && (n > 0 ==> frontier[n - 1] in ds)
            && forall q :: n <= q < |frontier| ==> frontier[q] !in ds
  {
    if frontier != [] && frontier[|frontier| - 1] !in ds {
      var front := frontier[..|frontier| - 1];
      ReleasedMeans(ds, front);
      assert forall q :: 0 <= q < |front| ==> frontier[q] == front[q];
    }
  }

  /** The first node of an id is the node that the canvas looks at. */
  lemma FirstIsKept(nodes: seq<DagNode>, i: nat) returns (m: nat)
    requires i < |nodes| && IsFirst(nodes, i)
    ensures nodes[i].id in LayoutIds(nodes) && NodeWith(nodes, nodes[i].id) == nodes[i]
    ensures m < |Firsts(nodes)| && Firsts(nodes)[m] == nodes[i] && Pos(InputOrder(nodes), nodes[i].id) == m
  {
    var places := FirstsExactly(nodes);
    assert i in places;
    m :| 0 <= m < |places| && places[m] == i;
    NodeWithIsFirst(nodes, nodes[i]);
    InputPlace(nodes, m);
  }

  lemma SurvivorsAreDependencies(nodes: seq<DagNode>, i: nat, d: string)
    requires i < |nodes| && IsFirst(nodes, i)
    ensures nodes[i].id in LayoutIds(nodes) && (d in SurvivingDeps(nodes, nodes[i].id) <==> DependsOn(nodes, i, d))
  {
    var m := FirstIsKept(nodes, i);
    NormalizedKeeps(nodes[i].id, Raw(nodes[i]), LayoutIds(nodes));
    assert d in LayoutIds(nodes) <==> exists j :: 0 <= j < |nodes| && nodes[j].id == d;
  }

  /** A node of a later layer has a dependency in the layer before. */
  lemma HasDependency(nodes: seq<DagNode>, before: seq<DagNode>, k: nat, v: string)
    requires IsLayer(nodes, k, before) && v in Layer(LayoutGraph(nodes), k + 1)
    ensures v in LayoutIds(nodes) && Released(SurvivingDeps(nodes, v), NodeIds(before)) > 0
  {
    var deps, g, frontier := LayoutDeps(nodes), LayoutGraph(nodes), NodeIds(before);
    NextLayer(deps, k, frontier);
    var ds := deps[v];
    NonePending(ds, Placed(g, k));
    NonePending(ds, Placed(g, k) + Members(frontier));
    ReleasedMeans(ds, frontier);
    var d :| d in ds && d !in Placed(g, k);
    assert d in Members(frontier);
    var q :| 0 <= q < |frontier| && frontier[q] == d;
  }

  lemma LastDependencyIsRelease(nodes: seq<DagNode>, before: seq<DagNode>, k: nat, i: nat) returns (p: nat)
    requires IsLayer(nodes, k, before) && i < |nodes| && IsFirst(nodes, i)
    requires nodes[i].id in Layer(LayoutGraph(nodes), k + 1)
    ensures LastDependency(nodes, i, before, p)
    ensures ReleaseOf(LayoutDeps(nodes), NodeIds(before), nodes[i].id) == p + 1
  {
    var v, frontier := nodes[i].id, NodeIds(before);
    HasDependency(nodes, before, k, v);
    ReleasedMeans(SurvivingDeps(nodes, v), frontier);
    p := Released(SurvivingDeps(nodes, v), frontier) - 1;
    forall q | 0 <= q < |before|
      ensures DependsOn(nodes, i, before[q].id) <==> frontier[q] in SurvivingDeps(nodes, v)
    {
      SurvivorsAreDependencies(nodes, i, before[q].id);
    }
  }

  lemma PlacesFollowInput(nodes: seq<DagNode>, i: nat, j: nat)
    requires i < |nodes| && IsFirst(nodes, i) && j < |nodes| && IsFirst(nodes, j)
    ensures Pos(InputOrder(nodes), nodes[i].id) < Pos(InputOrder(nodes), nodes[j].id) ==> i < j
  {
    var m := FirstIsKept(nodes, i);
    var n := FirstIsKept(nodes, j);
    var places := FirstsExactly(nodes);
    assert i in places && j in places;
    var a :| 0 <= a < |places| && places[a] == i;
    var b :| 0 <= b < |places| && places[b] == j;
    FirstsKeepsIds(nodes);
    assert a == m && b == n;
  }

  /** In the first layer nodes stand in input order; in a later one by the places of their last dependencies in the
      layer before, and those with the same last dependency in input order. */
  lemma LayerOrderExactly(nodes: seq<DagNode>, layers: seq<seq<DagNode>>, settled: nat, k: nat, a: nat, b: nat, i: nat,
                          j: nat) returns (p: nat, q: nat)
    requires settled <= |layers| && IsLayout(nodes, layers, settled) && LayersOrdered(nodes, layers[..settled])
    requires k < settled && a < b < |layers[k]|
    requires i < |nodes| && IsFirst(nodes, i) && nodes[i] == layers[k][a]
    requires j < |nodes| && IsFirst(nodes, j) && nodes[j] == layers[k][b]
    ensures k == 0 ==> i < j
    ensures k > 0 ==>
              && LastDependency(nodes, i, layers[k - 1], p) && LastDependency(nodes, j, layers[k - 1], q)
              && (p < q || (p == q && i < j))
  {
    p, q := 0, 0;
    FollowsPrevious(nodes, layers[..settled], k);
    InLayer(nodes, layers, settled, k, a);
    InLayer(nodes, layers, settled, k, b);
    var ids := NodeIds(layers[k]);
    assert ids[a] == nodes[i].id && ids[b] == nodes[j].id;
    if k > 0 {
      p, q := ByLastDependency(nodes, layers[k - 1], k - 1, ids, a, b, i, j);
    } else {
      PlacesFollowInput(nodes, i, j);
    }
  }

  lemma FollowsPrevious(nodes: seq<DagNode>, layers: seq<seq<DagNode>>, k: nat)
    requires LayersOrdered(nodes, layers) && k < |layers|
    ensures k == 0 ==> Ascending(InputOrder(nodes), NodeIds(layers[k]))
    ensures k > 0 ==> InOrder(LayoutDeps(nodes), InputOrder(nodes), NodeIds(layers[k - 1]), NodeIds(layers[k]))
  {
    assert Follows(nodes, layers[..k], NodeIds(layers[k]));
    assert k > 0 ==> layers[..k][k - 1] == layers[k - 1];
  }

  lemma ByLastDependency(nodes: seq<DagNode>, before: seq<DagNode>, k: nat, ids: seq<string>, a: nat, b: nat, i: nat,
                         j: nat) returns (p: nat, q: nat)
    requires IsLayer(nodes, k, before) && InOrder(LayoutDeps(nodes), InputOrder(nodes), NodeIds(before), ids)
    requires a < b < |ids| && ids[a] in Layer(LayoutGraph(nodes), k + 1) && ids[b] in Layer(LayoutGraph(nodes), k + 1)
    requires i < |nodes| && IsFirst(nodes, i) && nodes[i].id == ids[a]
    requires j < |nodes| && IsFirst(nodes, j) && nodes[j].id == ids[b]
    ensures LastDependency(nodes, i, before, p) && LastDependency(nodes, j, before, q)
    ensures p < q || (p == q && i < j)
  {
    p := LastDependencyIsRelease(nodes, before, k, i);
    q := LastDependencyIsRelease(nodes, before, k, j);
    PlacesFollowInput(nodes, i, j);
    assert Before(LayoutDeps(nodes), InputOrder(nodes), NodeIds(before), ids[a], ids[b]);
  }

  lemma InLayer(nodes: seq<DagNode>, layers: seq<seq<DagNode>>, settled: nat, k: nat, a: nat)
    requires settled <= |layers| && IsLayout(nodes, layers, settled) && k < settled && a < |layers[k]|
    ensures layers[k][a].id in Layer(LayoutGraph(nodes), k)
    ensures k > 0 ==> IsLayer(nodes, k - 1, layers[k - 1])
  {
    assert layers[..settled][k] == layers[k] && IsLayer(nodes, k, layers[k]);
    assert NodeIds(layers[k])[a] in Members(NodeIds(layers[k]));
    assert k > 0 ==> layers[..settled][k - 1] == layers[k - 1];
  }
}
