/** The node dictionaries of a workflow template, as far as layering reads them.

    A node has an id, the field `dependencies`, its alias `depends_on`, and a rest that layering does not look at.
    `Accepted` are the lists that pass validation, cycles aside; for these `GraphOfNodes` is the dependency graph
    they declare, which does not depend on the order of the list. */
module WorkflowNodes {
  import opened Wrappers
  import opened DependencyGraph
  import opened StringOrder
  import opened KahnCounting

  datatype Field = Missing | Text(text: string)  // Missing: absent, null or not a string

  datatype DepField = Absent | Malformed | Names(names: seq<string>)  // Absent: absent or null

  datatype Node = Node(id: Field, dependencies: DepField, dependsOn: DepField, body: string)

  predicate HasId(n: Node) {
    n.id.Text? && n.id.text != ""
  }

  function IdOf(n: Node): string {
    if n.id.Text? then n.id.text else ""
  }

  /** `_node_dependencies`: the alias `depends_on` counts only when `dependencies` is absent. */
  function Declared(n: Node): (d: DepField)
    ensures n.dependencies != Absent ==> d == n.dependencies
    ensures n.dependencies == Absent && n.dependsOn != Absent ==> d == n.dependsOn
    ensures n.dependencies == Absent && n.dependsOn == Absent ==> d == Names([])
  {
    var raw := if n.dependencies == Absent then n.dependsOn else n.dependencies;
    if raw == Absent then Names([]) else raw
  }

  ghost function IdSet(nodes: seq<Node>): set<string> {
    set n | n in nodes && HasId(n) :: n.id.text
  }

  ghost predicate IdsOk(nodes: seq<Node>) {
    && (forall i :: 0 <= i < |nodes| ==> HasId(nodes[i]))
    && (forall i, j :: 0 <= i < j < |nodes| ==> nodes[i].id.text != nodes[j].id.text)
  }

  ghost predicate DepsOk(nodes: seq<Node>) {
    forall i :: 0 <= i < |nodes| ==>
      Declared(nodes[i]).Names? && forall d :: d in Declared(nodes[i]).names ==> d in IdSet(nodes)
  }

  /** What the backend accepts, cycles aside. */
  ghost predicate Accepted(nodes: seq<Node>) {
    IdsOk(nodes) && DepsOk(nodes)
  }

  ghost function NodeOf(nodes: seq<Node>, v: string): Node
    requires v in IdSet(nodes)
  {
    var n :| n in nodes && HasId(n) && n.id.text == v; n
  }

  lemma NodeOfIsTheNode(nodes: seq<Node>, n: Node)
    requires IdsOk(nodes) && n in nodes
    ensures n.id.text in IdSet(nodes) && NodeOf(nodes, n.id.text) == n
  {}

  ghost function DepsOf(nodes: seq<Node>): Dependencies
    requires Accepted(nodes)
  {
    map v | v in IdSet(nodes) :: DepNames(nodes, v)
  }

  ghost function DepNames(nodes: seq<Node>, v: string): seq<string>
    requires Accepted(nodes) && v in IdSet(nodes)
  {
    Declared(NodeOf(nodes, v)).names
  }

  /** The dependency graph that a node list declares. */
  ghost function GraphOfNodes(nodes: seq<Node>): Graph
    requires Accepted(nodes)
  {
    GraphOf(DepsOf(nodes))
  }

  lemma GraphIsClosed(nodes: seq<Node>)
    requires Accepted(nodes)
    ensures Closed(GraphOfNodes(nodes)) && GraphOfNodes(nodes).Keys == IdSet(nodes) && |IdSet(nodes)| == |nodes|
  {
    forall v | v in IdSet(nodes)
      ensures GraphOfNodes(nodes)[v] <= IdSet(nodes)
    {
      var n := NodeOf(nodes, v);
      assert n in nodes;
    }
    IdCount(nodes);
  }

  lemma {:induction false} IdCount(nodes: seq<Node>)
    requires IdsOk(nodes)
    ensures |IdSet(nodes)| == |nodes|
  {
    if nodes == [] {
      assert IdSet(nodes) == {};
    } else {
      var n := |nodes| - 1;
      IdCount(nodes[..n]);
      assert nodes == nodes[..n] + [nodes[n]];
      assert IdSet(nodes) == IdSet(nodes[..n]) + {nodes[n].id.text};
    }
  }

  /** A permutation of a node list declares the same graph. */
  lemma PermutationKeepsGraph(a: seq<Node>, b: seq<Node>)
    requires multiset(a) == multiset(b) && Accepted(a)
    ensures Accepted(b) && GraphOfNodes(a) == GraphOfNodes(b)
    ensures forall v :: v in IdSet(a) ==> v in IdSet(b) && NodeOf(a, v) == NodeOf(b, v)
  {
    assert Distinct(a);
    PermutationKeepsDistinct(a, b);
    forall i | 0 <= i < |b|
      ensures HasId(b[i])
    {
      assert b[i] in a;
    }
    forall i, j | 0 <= i < j < |b|
      ensures b[i].id.text != b[j].id.text
    {
      assert b[i] in a && b[j] in a && b[i] != b[j];
      var k :| 0 <= k < |a| && a[k] == b[i];
      var l :| 0 <= l < |a| && a[l] == b[j];
    }
    assert IdSet(a) == IdSet(b);
    forall v | v in IdSet(a)
      ensures NodeOf(a, v) == NodeOf(b, v)
    {
      var n := NodeOf(a, v);
      assert n in b;
      NodeOfIsTheNode(b, n);
    }
    forall i | 0 <= i < |b|
      ensures Declared(b[i]).Names? && forall d :: d in Declared(b[i]).names ==> d in IdSet(b)
    {
      assert b[i] in a;
    }
    assert DepsOf(a) == DepsOf(b);
  }
}
