/** The order of the nodes inside a layer of the canvas: by the last dependency that was visited, then by input.

    A visit of a frontier appends a child when the last of its dependencies in the frontier is visited, and the
    children of one node stand in input order. `InOrder` states the resulting order without the loops, and
    `OrderIsUnique` that it leaves one possibility for a layer with given members. The other lemmas carry it through
    the loops. */
module LayoutOrder {
  import opened Wrappers
  import opened DependencyGraph
  import opened KahnCounting

  /** How much of the frontier has to be visited until none of it is still a dependency. */
  ghost function Released(ds: seq<string>, frontier: seq<string>): (n: nat)
    ensures n <= |frontier|
  {
    if frontier == [] then 0
    else if frontier[|frontier| - 1] in ds then |frontier|
    else Released(ds, frontier[..|frontier| - 1])
  }

  lemma {:induction false} ReleasedAt(ds: seq<string>, frontier: seq<string>, i: nat)
    requires i < |frontier| && frontier[i] in ds && forall k :: i < k < |frontier| ==> frontier[k] !in ds
    ensures Released(ds, frontier) == i + 1
  {
    if i < |frontier| - 1 {
      ReleasedAt(ds, frontier[..|frontier| - 1], i);
    }
  }

  /** The place of an id in the input. */
  ghost function Pos(order: seq<string>, v: string): nat {
    if order == [] || order[0] == v then 0 else 1 + Pos(order[1..], v)
  }

  lemma {:induction false} PosOfIndex(order: seq<string>, i: nat)
    requires Distinct(order) && i < |order|
    ensures Pos(order, order[i]) == i
  {
    if i > 0 {
      assert order[0] != order[i];
      PosOfIndex(order[1..], i - 1);
    }
  }

  ghost function ReleaseOf(deps: Dependencies, frontier: seq<string>, v: string): nat {
    if v in deps then Released(deps[v], frontier) else 0
  }

  ghost predicate Before(deps: Dependencies, order: seq<string>, frontier: seq<string>, a: string, b: string) {
    || ReleaseOf(deps, frontier, a) < ReleaseOf(deps, frontier, b)
    || (ReleaseOf(deps, frontier, a) == ReleaseOf(deps, frontier, b) && Pos(order, a) < Pos(order, b))
  }

  /** `next` as the visit of `frontier` releases it. */
  ghost predicate InOrder(deps: Dependencies, order: seq<string>, frontier: seq<string>, next: seq<string>) {
    forall a, b :: 0 <= a < b < |next| ==> Before(deps, order, frontier, next[a], next[b])
  }

  ghost predicate Ascending(order: seq<string>, s: seq<string>) {
    forall a, b :: 0 <= a < b < |s| ==> Pos(order, s[a]) < Pos(order, s[b])
  }

  ghost predicate TableAscends(order: seq<string>, dependents: map<string, seq<string>>) {
    forall u :: u in dependents ==> Ascending(order, dependents[u])
  }

  // ---- Building the dependents table in input order

  /** The table while the ids before place `i` have been added, and `id`, which stands there, to `names`. */
  ghost predicate Added(order: seq<string>, i: nat, id: string, names: seq<string>, table: map<string, seq<string>>) {
    forall u :: u in table ==>
      && Ascending(order, table[u])
      && forall v :: v in table[u] ==> Pos(order, v) < i || (v == id && u in names)
  }

  ghost predicate Bounded(order: seq<string>, i: nat, table: map<string, seq<string>>) {
    forall u :: u in table ==> Ascending(order, table[u]) && forall v :: v in table[u] ==> Pos(order, v) < i
  }

  lemma AddChild(order: seq<string>, i: nat, id: string, names: seq<string>, table: map<string, seq<string>>,
                 dep: string)
    requires Added(order, i, id, names, table) && dep !in names && Pos(order, id) == i
    ensures Added(order, i, id, names + [dep], Append(table, dep, id))
  {
    var sofar := if dep in table then table[dep] else [];
    forall a | 0 <= a < |sofar|
      ensures Pos(order, sofar[a]) < i
    {
      assert sofar[a] in table[dep];
    }
  }

  lemma AllAdded(order: seq<string>, i: nat, id: string, names: seq<string>, table: map<string, seq<string>>)
    requires Added(order, i, id, names, table) && Pos(order, id) == i
    ensures Bounded(order, i + 1, table)
  {
  }

  // ---- Visiting a frontier

  /** The visit of the node at place `i` of a frontier, when the nodes in `start` were done before. */
  datatype Visit = Visit(deps: Dependencies, order: seq<string>, start: set<string>, frontier: seq<string>, i: nat)
  {
    ghost predicate Valid() {
      i < |frontier| && Distinct(frontier) && Members(frontier) !! start
    }

    ghost function Node(): string
      requires Valid()
    {
      frontier[i]
    }

    ghost function Done(): set<string>
      requires Valid()
    {
      start + Members(frontier[..i])
    }
  }

  /** Everything released by this node so far is among its first `j` children. */
  ghost predicate Visiting(v: Visit, all: seq<string>, j: nat, next: seq<string>)
    requires j <= |all|
  {
    && InOrder(v.deps, v.order, v.frontier, next)
    && forall x :: x in next ==>
         && ReleaseOf(v.deps, v.frontier, x) <= v.i + 1
         && (ReleaseOf(v.deps, v.frontier, x) == v.i + 1 ==> x in all[..j])
  }

  /** Everything released so far was released before place `i`. */
  ghost predicate Visited(deps: Dependencies, order: seq<string>, frontier: seq<string>, i: nat, next: seq<string>) {
    InOrder(deps, order, frontier, next) && forall x :: x in next ==> ReleaseOf(deps, frontier, x) <= i
  }

  lemma StartVisit(v: Visit, all: seq<string>, next: seq<string>)
    requires Visited(v.deps, v.order, v.frontier, v.i, next)
    ensures Visiting(v, all, 0, next)
  {
  }

  lemma PushChild(v: Visit, all: seq<string>, j: nat, next: seq<string>)
    requires j < |all| && Visiting(v, all, j, next)
    requires Ascending(v.order, all) && ReleaseOf(v.deps, v.frontier, all[j]) == v.i + 1
    ensures Visiting(v, all, j + 1, next + [all[j]])
  {
    assert all[..j + 1] == all[..j] + [all[j]];
    forall a | 0 <= a < |next|
      ensures Before(v.deps, v.order, v.frontier, next[a], all[j])
    {
      assert next[a] in next;
      if ReleaseOf(v.deps, v.frontier, next[a]) == v.i + 1 {
        var c :| 0 <= c < j && all[c] == next[a];
      }
    }
  }

  lemma PassChild(v: Visit, all: seq<string>, j: nat, next: seq<string>)
    requires j < |all| && Visiting(v, all, j, next)
    ensures Visiting(v, all, j + 1, next)
  {
    assert all[..j + 1] == all[..j] + [all[j]];
  }

  /** A child whose count reaches zero now is released now. */
  lemma ReleasedNow(v: Visit, indegree: map<string, int>, all: seq<string>, j: nat)
    requires v.Valid() && AreDependents(v.deps, v.Node(), all) && j < |all| && all[j] in v.deps
    requires PartlyCounted(v.deps, indegree, v.Done(), all[..j + 1]) && indegree[all[j]] == 0
    ensures ReleaseOf(v.deps, v.frontier, all[j]) == v.i + 1
  {
    var w, u, done := all[j], v.Node(), v.Done();
    assert u in Members(v.frontier);
    assert all == all[..j + 1] + all[j + 1..];
    assert w in all;
    FinishOne(v.deps[w], done, u);
    NonePending(v.deps[w], done + {u});
    forall k | v.i < k < |v.frontier|
      ensures v.frontier[k] !in v.deps[w]
    {
      assert v.frontier[k] in Members(v.frontier);
    }
    ReleasedAt(v.deps[w], v.frontier, v.i);
  }

  /** One more child has been visited. */
  lemma VisitOne(v: Visit, indegree: map<string, int>, all: seq<string>, j: nat, next: seq<string>)
    requires v.Valid() && AreDependents(v.deps, v.Node(), all) && j < |all| && all[j] in v.deps
    requires Ascending(v.order, all) && Visiting(v, all, j, next)
    requires PartlyCounted(v.deps, indegree, v.Done(), all[..j + 1])
    ensures Visiting(v, all, j + 1, Listed(indegree, all[j], next))
  {
    if indegree[all[j]] == 0 {
      ReleasedNow(v, indegree, all, j);
      PushChild(v, all, j, next);
    } else {
      PassChild(v, all, j, next);
    }
  }

  lemma EndVisit(v: Visit, all: seq<string>, next: seq<string>)
    requires Visiting(v, all, |all|, next)
    ensures Visited(v.deps, v.order, v.frontier, v.i + 1, next)
  {
  }

  /** A layer in this order is determined by its members. */
  lemma {:induction false} OrderIsUnique(deps: Dependencies, order: seq<string>, frontier: seq<string>, a: seq<string>,
                                         b: seq<string>)
    requires InOrder(deps, order, frontier, a) && InOrder(deps, order, frontier, b)
    requires forall x :: x in a <==> x in b
    ensures a == b
    decreases |a|
  {
    assert (a != [] ==> a[0] in b) && (b != [] ==> b[0] in a);
    if a != [] && b != [] {
      SameFirst(deps, order, frontier, a, b);
      forall x
        ensures x in a[1..] <==> x in b[1..]
      {
        RestWithout(deps, order, frontier, a, x);
        RestWithout(deps, order, frontier, b, x);
      }
      OrderIsUnique(deps, order, frontier, a[1..], b[1..]);
      assert a == [a[0]] + a[1..] && b == [b[0]] + b[1..];
    }
  }

  lemma SameFirst(deps: Dependencies, order: seq<string>, frontier: seq<string>, a: seq<string>, b: seq<string>)
    requires InOrder(deps, order, frontier, a) && InOrder(deps, order, frontier, b)
    requires a != [] && b != [] && a[0] in b && b[0] in a
    ensures a[0] == b[0]
  {
    var i :| 0 <= i < |b| && b[i] == a[0];
    var j :| 0 <= j < |a| && a[j] == b[0];
  }

  lemma RestWithout(deps: Dependencies, order: seq<string>, frontier: seq<string>, a: seq<string>, x: string)
    requires a != [] && InOrder(deps, order, frontier, a)
    ensures x in a[1..] <==> x in a && x != a[0]
  {
    assert a == [a[0]] + a[1..];
    forall i | 1 <= i < |a|
      ensures a[i] != a[0]
    {
      assert Before(deps, order, frontier, a[0], a[i]);
    }
  }
}
