/** Dependency graphs and their layers, independent of any algorithm. */
module DependencyGraph {

  // `Placed(g, k)` are the nodes that `k` rounds of "take every node whose dependencies are all taken" take. The
  // theorems say what that means in the graph: longest dependency chains, and cycles.

  type Graph = map<string, set<string>>  // node id -> ids it depends on

  ghost predicate Closed(g: Graph) {
    forall v :: v in g ==> g[v] <= g.Keys
  }

  ghost function Placed(g: Graph, k: nat): set<string> {
    if k == 0 then {} else set v | v in g && g[v] <= Placed(g, k - 1)
  }

  ghost function Layer(g: Graph, k: nat): set<string> {
    Placed(g, k + 1) - Placed(g, k)
  }

  /** A walk follows dependencies: each node depends on the next one. */
  ghost predicate IsWalk(g: Graph, p: seq<string>) {
    && p != []
    && (forall i :: 0 <= i < |p| ==> p[i] in g)
    && (forall i :: 0 <= i < |p| - 1 ==> p[i + 1] in g[p[i]])
  }

  ghost predicate IsCycle(g: Graph, p: seq<string>) {
    IsWalk(g, p) && |p| >= 2 && p[0] == p[|p| - 1]
  }

  ghost predicate OnCycle(g: Graph, v: string) {
    exists p :: IsCycle(g, p) && p[0] == v
  }

  /** Following dependencies from `v` reaches a node on a cycle. */
  ghost predicate ReachesCycle(g: Graph, v: string) {
    exists p :: IsWalk(g, p) && p[0] == v && OnCycle(g, p[|p| - 1])
  }

  ghost predicate Acyclic(g: Graph) {
    forall v :: v in g ==> !OnCycle(g, v)
  }

  // ---- Rounds

  lemma {:induction false} PlacedGrows(g: Graph, j: nat, k: nat)
    requires j <= k
    ensures Placed(g, j) <= Placed(g, k) <= g.Keys
    decreases k
  {
    if 0 < j {
      PlacedGrows(g, j - 1, k - 1);
    }
  }

  lemma {:induction false} FixpointStays(g: Graph, j: nat, k: nat)
    requires j <= k && Placed(g, j) == Placed(g, j + 1)
    ensures Placed(g, k) == Placed(g, j)
    decreases k - j
  {
    if j < k {
      FixpointStays(g, j + 1, k);
    }
  }

  lemma SubsetSize<T>(a: set<T>, b: set<T>)
    requires a <= b
    ensures |a| <= |b|
    ensures |a| == |b| ==> a == b
  {
    assert b == a + (b - a);
  }

  /** The rounds settle after as many rounds as there are nodes. */
  lemma {:induction false} Progress(g: Graph, k: nat) returns (settled: bool, j: nat)
    ensures settled ==> j < k && Placed(g, j) == Placed(g, j + 1)
    ensures !settled ==> k <= |Placed(g, k)|
  {
    if k == 0 {
      return false, 0;
    }
    settled, j := Progress(g, k - 1);
    if !settled {
      PlacedGrows(g, k - 1, k);
      SubsetSize(Placed(g, k - 1), Placed(g, k));
      if Placed(g, k - 1) == Placed(g, k) {
        return true, k - 1;
      }
    }
  }

  lemma Settles(g: Graph, k: nat)
    requires |g.Keys| <= k
    ensures Placed(g, k) == Placed(g, k + 1)
  {
    var settled, j := Progress(g, k + 1);
    PlacedGrows(g, k, k + 1);
    if settled {
      FixpointStays(g, j, k);
      FixpointStays(g, j, k + 1);
    } else {
      SubsetSize(Placed(g, k + 1), g.Keys);
    }
  }

  /** When a round takes nothing, the rounds have settled. */
  lemma EmptyLayerSettles(g: Graph, k: nat) returns (n: nat)
    requires Layer(g, k) == {}
    ensures Placed(g, k) == Placed(g, k + 1) == Placed(g, n)
    ensures |g.Keys| <= n
  {
    PlacedGrows(g, k, k + 1);
    assert Placed(g, k + 1) == Placed(g, k) + Layer(g, k);
    n := if k <= |g.Keys| then |g.Keys| else k;
    FixpointStays(g, k, n);
  }

  // ---- Layers are longest chains

  lemma {:induction false} PlacedBoundsWalks(g: Graph, p: seq<string>, k: nat)
    requires IsWalk(g, p) && p[0] in Placed(g, k)
    ensures |p| <= k
    ensures p[|p| - 1] in Placed(g, k - |p| + 1)
    decreases |p|
  {
    if |p| > 1 {
      PlacedBoundsWalks(g, p[1..], k - 1);
    }
  }

  lemma {:induction false} LongWalk(g: Graph, v: string, k: nat) returns (p: seq<string>)
    requires Closed(g) && v in g && v !in Placed(g, k)
    ensures IsWalk(g, p) && p[0] == v && |p| == k + 1
    decreases k
  {
    if k == 0 {
      return [v];
    }
    var d :| d in g[v] && d !in Placed(g, k - 1);
    var q := LongWalk(g, d, k - 1);
    p := [v] + q;
    assert forall i :: 0 <= i < |p| - 1 ==> p[i + 1] == q[i];
  }

  /** The layer of a node is the length of its longest dependency chain. */
  lemma LayerIsLongestChain(g: Graph, v: string, k: nat)
    requires Closed(g) && v in g
    ensures v in Layer(g, k) <==>
              && (exists p :: IsWalk(g, p) && p[0] == v && |p| == k + 1)
              && (forall p :: IsWalk(g, p) && p[0] == v ==> |p| <= k + 1)
  {
    if v in Layer(g, k) {
      var p := LongWalk(g, v, k);
      forall q | IsWalk(g, q) && q[0] == v
        ensures |q| <= k + 1
      {
        PlacedBoundsWalks(g, q, k + 1);
      }
    }
    if v !in Placed(g, k + 1) {
      var p := LongWalk(g, v, k + 1);
    }
    if v in Placed(g, k) {
      forall p | IsWalk(g, p) && p[0] == v
        ensures |p| != k + 1
      {
        PlacedBoundsWalks(g, p, k);
      }
    }
  }

  lemma {:induction false} DependencyIsEarlier(g: Graph, v: string, d: string, k: nat)
    requires v in Layer(g, k) && d in g[v]
    ensures exists j :: 0 <= j < k && d in Layer(g, j)
  {
    var j := FirstRound(g, d, k);
  }

  lemma {:induction false} FirstRound(g: Graph, v: string, k: nat) returns (j: nat)
    requires v in Placed(g, k)
    ensures j < k && v in Layer(g, j)
  {
    if v in Placed(g, k - 1) {
      j := FirstRound(g, v, k - 1);
    } else {
      j := k - 1;
    }
  }

  lemma LayersAreDisjoint(g: Graph, v: string, j: nat, k: nat)
    requires v in Layer(g, j) && v in Layer(g, k)
    ensures j == k
  {
    if j < k {
      PlacedGrows(g, j + 1, k);
    } else if k < j {
      PlacedGrows(g, k + 1, j);
    }
  }

  // ---- What is never placed reaches a cycle

  lemma {:induction false} PlacedIsNotOnCycle(g: Graph, p: seq<string>, k: nat)
    requires IsCycle(g, p) && p[0] in Placed(g, k)
    ensures false
  {
    PlacedBoundsWalks(g, p, k);
    PlacedGrows(g, k - |p| + 1, k - 1);
    PlacedIsNotOnCycle(g, p, k - 1);
  }

  lemma Pigeonhole(p: seq<string>, s: set<string>) returns (i: nat, j: nat)
    requires |p| > |s| && forall x :: x in p ==> x in s
    ensures i < j < |p| && p[i] == p[j]
  {
    if forall a, b :: 0 <= a < b < |p| ==> p[a] != p[b] {
      DistinctSize(p);
      SubsetSize((set x | x in p), s);
    }
    i, j :| 0 <= i < j < |p| && p[i] == p[j];
  }

  lemma {:induction false} DistinctSize<T>(p: seq<T>)
    requires forall a, b :: 0 <= a < b < |p| ==> p[a] != p[b]
    ensures |set x | x in p| == |p|
  {
    if p == [] {
      assert (set x | x in p) == {};
    } else {
      var n := |p| - 1;
      DistinctSize(p[..n]);
      assert p == p[..n] + [p[n]];
      assert (set x | x in p) == (set x | x in p[..n]) + {p[n]};
      assert p[n] !in p[..n];
    }
  }

  /** Once the rounds have settled, the nodes never placed are exactly those from which following dependencies
      reaches a cycle. */
  lemma UnplacedReachesCycle(g: Graph, v: string, k: nat)
    requires Closed(g) && v in g && |g.Keys| <= k
    ensures v !in Placed(g, k) <==> ReachesCycle(g, v)
  {
    if v !in Placed(g, k) {
      var p := LongWalk(g, v, k);
      var i, j := Pigeonhole(p, g.Keys);
      var stem, loop := p[..i + 1], p[i..j + 1];
      assert IsCycle(g, loop);
      assert IsWalk(g, stem) && OnCycle(g, stem[|stem| - 1]);
    }
    if ReachesCycle(g, v) && v in Placed(g, k) {
      var p :| IsWalk(g, p) && p[0] == v && OnCycle(g, p[|p| - 1]);
      var c :| IsCycle(g, c) && c[0] == p[|p| - 1];
      PlacedBoundsWalks(g, p, k);
      PlacedIsNotOnCycle(g, c, k - |p| + 1);
    }
  }

  lemma AllPlacedIffAcyclic(g: Graph, k: nat)
    requires Closed(g) && |g.Keys| <= k
    ensures Placed(g, k) == g.Keys <==> Acyclic(g)
  {
    PlacedGrows(g, k, k);
    if Placed(g, k) == g.Keys {
      forall v | v in g
        ensures !OnCycle(g, v)
      {
        assert IsWalk(g, [v]) && [v][0] == v == [v][|[v]| - 1];
        UnplacedReachesCycle(g, v, k);
      }
    } else {
      var v :| v in g && v !in Placed(g, k);
      UnplacedReachesCycle(g, v, k);
      var p :| IsWalk(g, p) && p[0] == v && OnCycle(g, p[|p| - 1]);
    }
  }
}
