/** Which node of a rejected list the validation of `topological_sort` names, and for what. */
module SortErrors {
  import opened Wrappers
  import opened WorkflowNodes
  import opened TopologicalSort

  /** Node `i` has an id, and no earlier node has the same. */
  ghost predicate GoodId(nodes: seq<Node>, i: nat)
    requires i < |nodes|
  {
    nodes[i].id.Text? && nodes[i].id.text != "" && forall k :: 0 <= k < i ==> nodes[k].id != nodes[i].id
  }

  ghost predicate GoodIds(nodes: seq<Node>, n: nat)
    requires n <= |nodes|
  {
    forall i :: 0 <= i < n ==> GoodId(nodes, i)
  }

  ghost predicate Known(nodes: seq<Node>, d: string) {
    exists k :: 0 <= k < |nodes| && nodes[k].id == Text(d)
  }

  /** The dependencies of node `i` are a list of known ids. */
  ghost predicate GoodDeps(nodes: seq<Node>, i: nat)
    requires i < |nodes|
  {
    Declared(nodes[i]).Names? && forall d :: d in Declared(nodes[i]).names ==> Known(nodes, d)
  }

  ghost predicate GoodDepsBefore(nodes: seq<Node>, n: nat)
    requires n <= |nodes|
  {
    forall i :: 0 <= i < n ==> GoodDeps(nodes, i)
  }

  /** Node `i` is the first without an id. */
  ghost predicate LacksId(nodes: seq<Node>, i: nat)
    requires i < |nodes|
  {
    GoodIds(nodes, i) && !(nodes[i].id.Text? && nodes[i].id.text != "")
  }

  /** Node `i` is the first with an id that is already taken, and the id is `v`. */
  ghost predicate RepeatsId(nodes: seq<Node>, i: nat, v: string)
    requires i < |nodes|
  {
    GoodIds(nodes, i) && v != "" && nodes[i].id == Text(v) && exists k :: 0 <= k < i && nodes[k].id == Text(v)
  }

  /** Node `v`, at place `i`, is the first with dependencies that are no list of names or not all known. */
  ghost predicate Malforms(nodes: seq<Node>, i: nat, v: string)
    requires i < |nodes|
  {
    GoodIds(nodes, |nodes|) && GoodDepsBefore(nodes, i) && nodes[i].id == Text(v) && !Declared(nodes[i]).Names?
  }

  /** ... and its first unknown dependency, at place `j`, is `d`. */
  ghost predicate DependsOnUnknown(nodes: seq<Node>, i: nat, j: nat, v: string, d: string)
    requires i < |nodes|
  {
    && GoodIds(nodes, |nodes|) && GoodDepsBefore(nodes, i) && nodes[i].id == Text(v)
    && Declared(nodes[i]).Names? && j < |Declared(nodes[i]).names|
    && Declared(nodes[i]).names[j] == d && !Known(nodes, d)
    && forall k :: 0 <= k < j ==> Known(nodes, Declared(nodes[i]).names[k])
  }

  // ---- Where the errors come from

  lemma IdsOkMeansGood(nodes: seq<Node>, n: nat)
    requires n <= |nodes|
    ensures IdsOk(nodes[..n]) <==> GoodIds(nodes, n)
  {
    if GoodIds(nodes, n) {
      forall i, j | 0 <= i < j < n
        ensures HasId(nodes[..n][i]) && HasId(nodes[..n][j]) && nodes[..n][i].id != nodes[..n][j].id
      {
        assert GoodId(nodes, i) && GoodId(nodes, j);
      }
      forall i | 0 <= i < n
        ensures HasId(nodes[..n][i])
      {
        assert GoodId(nodes, i);
      }
    }
    if IdsOk(nodes[..n]) {
      forall i | 0 <= i < n
        ensures GoodId(nodes, i)
      {
        assert HasId(nodes[..n][i]);
        assert forall k :: 0 <= k < i ==> nodes[..n][k] == nodes[k];
      }
    }
  }

  lemma IdSetMeansKnown(nodes: seq<Node>, d: string)
    requires GoodIds(nodes, |nodes|)
    ensures d in IdSet(nodes) <==> Known(nodes, d)
  {
    if k :| 0 <= k < |nodes| && nodes[k].id == Text(d) {
      assert GoodId(nodes, k) && nodes[k] in nodes;
    }
  }

  lemma {:induction false} FirstBadId(nodes: seq<Node>, n: nat) returns (i: nat)
    requires n <= |nodes| && IdError(nodes[..n]).Some?
    ensures i < n && (LacksId(nodes, i) || (nodes[i].id.Text? && RepeatsId(nodes, i, nodes[i].id.text)))
    ensures IdError(nodes[..n]) == Some(if LacksId(nodes, i) then MissingId else DuplicateId(nodes[i].id.text))
    decreases n
  {
    i := n - 1;
    assert nodes[..n][..i] == nodes[..i];
    if IdError(nodes[..i]).Some? {
      i := FirstBadId(nodes, n - 1);
    } else {
      IdErrorMeansBadIds(nodes[..i]);
      IdsOkMeansGood(nodes, i);
      if HasId(nodes[i]) {
        var k :| 0 <= k < i && nodes[..i][k].id == nodes[i].id;
        assert nodes[k].id == nodes[i].id;
      }
    }
  }

  lemma {:induction false} FirstBadName(id: string, names: seq<string>, ids: set<string>) returns (j: nat)
    requires FirstUnknown(id, names, ids).Some?
    ensures j < |names| && names[j] !in ids && forall k :: 0 <= k < j ==> names[k] in ids
    ensures FirstUnknown(id, names, ids) == Some(UnknownDependency(id, names[j]))
  {
    var n := |names| - 1;
    j := n;
    if FirstUnknown(id, names[..n], ids).Some? {
      j := FirstBadName(id, names[..n], ids);
    } else {
      FirstUnknownMeansUnknown(id, names[..n], ids);
      assert forall k :: 0 <= k < n ==> names[k] in names[..n];
    }
  }

  lemma {:induction false} FirstBadDeps(nodes: seq<Node>, n: nat) returns (i: nat)
    requires n <= |nodes| && IdsOk(nodes) && DepError(nodes[..n], IdSet(nodes)).Some?
    ensures i < n && HasId(nodes[i]) && GoodDepsBefore(nodes, i)
    ensures DepError(nodes[..n], IdSet(nodes)) == NodeDepError(nodes[i], IdSet(nodes))
    decreases n
  {
    i := n - 1;
    assert nodes[..n][..i] == nodes[..i];
    if DepError(nodes[..i], IdSet(nodes)).Some? {
      i := FirstBadDeps(nodes, n - 1);
    } else {
      DepErrorMeansBadDeps(nodes[..i], IdSet(nodes));
      assert nodes[..|nodes|] == nodes;
      IdsOkMeansGood(nodes, |nodes|);
      forall k | 0 <= k < i
        ensures GoodDeps(nodes, k)
      {
        assert nodes[..i][k] == nodes[k];
        forall d | d in Declared(nodes[k]).names
          ensures Known(nodes, d)
        {
          IdSetMeansKnown(nodes, d);
        }
      }
    }
  }

  // ---- The result names the first bad place

  lemma BadIdIsUnique(nodes: seq<Node>, i: nat, k: nat)
    requires i < |nodes| && k < |nodes| && GoodIds(nodes, i) && GoodIds(nodes, k)
    requires !GoodId(nodes, i) && !GoodId(nodes, k)
    ensures i == k
  {
  }

  lemma NamesBadId(nodes: seq<Node>, v: string)
    ensures IdError(nodes) == Some(MissingId) <==> exists i: nat :: i < |nodes| && LacksId(nodes, i)
    ensures IdError(nodes) == Some(DuplicateId(v)) <==> exists i: nat :: i < |nodes| && RepeatsId(nodes, i, v)
  {
    assert nodes[..|nodes|] == nodes;
    if IdError(nodes).Some? {
      var i := FirstBadId(nodes, |nodes|);
      forall k: nat | k < |nodes| && (LacksId(nodes, k) || RepeatsId(nodes, k, v))
        ensures k == i
      {
        BadIdIsUnique(nodes, i, k);
      }
    } else {
      IdErrorMeansBadIds(nodes);
      AllIdsGood(nodes);
      assert forall i :: 0 <= i < |nodes| ==> GoodId(nodes, i);
    }
  }

  lemma BadDepsIsUnique(nodes: seq<Node>, i: nat, k: nat)
    requires i < |nodes| && k < |nodes| && GoodDepsBefore(nodes, i) && GoodDepsBefore(nodes, k)
    requires !GoodDeps(nodes, i) && !GoodDeps(nodes, k)
    ensures i == k
  {
  }

  lemma NamesBadDeps(nodes: seq<Node>, v: string, d: string)
    requires IdsOk(nodes)
    ensures DepError(nodes, IdSet(nodes)) == Some(MalformedDependencies(v))
            <==> exists i: nat :: i < |nodes| && Malforms(nodes, i, v)
    ensures DepError(nodes, IdSet(nodes)) == Some(UnknownDependency(v, d))
            <==> exists i: nat, j: nat :: i < |nodes| && DependsOnUnknown(nodes, i, j, v, d)
  {
    AllIdsGood(nodes);
    if DepError(nodes, IdSet(nodes)).Some? {
      var i := FirstBadNode(nodes);
      NamesBadNode(nodes, i, v, d);
    } else {
      AllDepsGood(nodes);
      NamesNobody(nodes, v, d);
    }
  }

  lemma AllIdsGood(nodes: seq<Node>)
    ensures IdsOk(nodes) <==> GoodIds(nodes, |nodes|)
  {
    assert nodes[..|nodes|] == nodes;
    IdsOkMeansGood(nodes, |nodes|);
  }

  lemma FirstBadNode(nodes: seq<Node>) returns (i: nat)
    requires IdsOk(nodes) && DepError(nodes, IdSet(nodes)).Some?
    ensures i < |nodes| && HasId(nodes[i]) && GoodDepsBefore(nodes, i)
    ensures DepError(nodes, IdSet(nodes)) == NodeDepError(nodes[i], IdSet(nodes))
  {
    assert nodes[..|nodes|] == nodes;
    i := FirstBadDeps(nodes, |nodes|);
  }

  lemma NamesNobody(nodes: seq<Node>, v: string, d: string)
    requires GoodDepsBefore(nodes, |nodes|)
    ensures forall i: nat :: i < |nodes| ==> !Malforms(nodes, i, v)
    ensures forall i: nat, j: nat :: i < |nodes| ==> !DependsOnUnknown(nodes, i, j, v, d)
  {
    forall i: nat, j: nat | i < |nodes|
      ensures !Malforms(nodes, i, v) && !DependsOnUnknown(nodes, i, j, v, d)
    {
      assert GoodDeps(nodes, i);
    }
    forall i: nat | i < |nodes|
      ensures !Malforms(nodes, i, v)
    {
      assert GoodDeps(nodes, i);
    }
  }

  lemma AllDepsGood(nodes: seq<Node>)
    requires IdsOk(nodes) && GoodIds(nodes, |nodes|) && DepError(nodes, IdSet(nodes)).None?
    ensures GoodDepsBefore(nodes, |nodes|)
  {
    DepErrorMeansBadDeps(nodes, IdSet(nodes));
    forall i | 0 <= i < |nodes|
      ensures GoodDeps(nodes, i)
    {
      forall d | d in Declared(nodes[i]).names
        ensures Known(nodes, d)
      {
        IdSetMeansKnown(nodes, d);
      }
    }
  }

  lemma NamesBadNode(nodes: seq<Node>, i: nat, v: string, d: string)
    requires IdsOk(nodes) && GoodIds(nodes, |nodes|) && i < |nodes| && HasId(nodes[i]) && GoodDepsBefore(nodes, i)
    requires NodeDepError(nodes[i], IdSet(nodes)).Some?
    ensures NodeDepError(nodes[i], IdSet(nodes)) == Some(MalformedDependencies(v))
            <==> exists k: nat :: k < |nodes| && Malforms(nodes, k, v)
    ensures NodeDepError(nodes[i], IdSet(nodes)) == Some(UnknownDependency(v, d))
            <==> exists k: nat, j: nat :: k < |nodes| && DependsOnUnknown(nodes, k, j, v, d)
  {
    forall name
      ensures name in IdSet(nodes) <==> Known(nodes, name)
    {
      IdSetMeansKnown(nodes, name);
    }
    if Declared(nodes[i]).Names? {
      var j := FirstBadName(nodes[i].id.text, Declared(nodes[i]).names, IdSet(nodes));
      assert Declared(nodes[i]).names[j] in Declared(nodes[i]).names;
      assert DependsOnUnknown(nodes, i, j, nodes[i].id.text, Declared(nodes[i]).names[j]);
      forall k: nat, l: nat | k < |nodes| && DependsOnUnknown(nodes, k, l, v, d)
        ensures k == i && l == j
      {
        BadDepsIsUnique(nodes, i, k);
      }
    } else {
      assert Malforms(nodes, i, nodes[i].id.text);
    }
    forall k: nat | k < |nodes| && Malforms(nodes, k, v)
      ensures k == i
    {
      BadDepsIsUnique(nodes, i, k);
    }
    forall k: nat, l: nat | k < |nodes| && DependsOnUnknown(nodes, k, l, v, d)
      ensures k == i
    {
      BadDepsIsUnique(nodes, i, k);
    }
  }

  /** For every result of the sort: the error is that of the first node without a usable id if there is one, and
      otherwise that of the first node whose dependencies are malformed or not all known; it names the node, and then
      the first dependency of it that no node has as its id. */
  lemma ErrorsExactly(nodes: seq<Node>, r: Result<seq<seq<Node>>, DagError>, v: string, d: string)
    requires IdError(nodes).Some? ==> r == Failure(IdError(nodes).value)
    requires IdsOk(nodes) && DepError(nodes, IdSet(nodes)).Some? ==> r == Failure(DepError(nodes, IdSet(nodes)).value)
    requires Accepted(nodes) && r.Failure? ==> r.error.CyclicDependency?
    ensures r == Failure(MissingId) <==> exists i: nat :: i < |nodes| && LacksId(nodes, i)
    ensures r == Failure(DuplicateId(v)) <==> exists i: nat :: i < |nodes| && RepeatsId(nodes, i, v)
    ensures r == Failure(MalformedDependencies(v)) <==> exists i: nat :: i < |nodes| && Malforms(nodes, i, v)
    ensures r == Failure(UnknownDependency(v, d))
            <==> exists i: nat, j: nat :: i < |nodes| && DependsOnUnknown(nodes, i, j, v, d)
  {
    NamesBadId(nodes, v);
    ValidMeansAccepted(nodes);
    if IdsOk(nodes) {
      NamesBadDeps(nodes, v, d);
      if DepError(nodes, IdSet(nodes)).Some? {
        var i := FirstBadNode(nodes);
        NodeErrorKind(nodes, i);
      }
    } else {
      IdErrorKind(nodes);
      AllIdsGood(nodes);
    }
  }

  lemma IdErrorKind(nodes: seq<Node>)
    requires IdError(nodes).Some?
    ensures IdError(nodes).value.MissingId? || IdError(nodes).value.DuplicateId?
  {
    assert nodes[..|nodes|] == nodes;
    var i := FirstBadId(nodes, |nodes|);
  }

  lemma NodeErrorKind(nodes: seq<Node>, i: nat)
    requires i < |nodes| && HasId(nodes[i]) && NodeDepError(nodes[i], IdSet(nodes)).Some?
    ensures var e := NodeDepError(nodes[i], IdSet(nodes)).value; e.MalformedDependencies? || e.UnknownDependency?
  {
    if Declared(nodes[i]).Names? {
      var j := FirstBadName(nodes[i].id.text, Declared(nodes[i]).names, IdSet(nodes));
    }
  }
}
