/** What Kahn's algorithm counts: for each node the dependencies, with repetitions, that are not done yet.

    Both layering algorithms keep an `indegree` per node and a table of `dependents`. `Counted` says what the first
    holds between two nodes, `PartlyCounted` what it holds in the middle of finishing one node, and `Reversed` that
    the second is the dependency table read backwards, with multiplicity. `ReadySince` says what the list of newly
    ready nodes holds. The lemmas carry these from one assignment of the loops to the next. */
module KahnCounting {
  import opened Wrappers
  import opened DependencyGraph
  import opened StringOrder

  type Dependencies = map<string, seq<string>>

  ghost function GraphOf(deps: Dependencies): Graph {
    map v | v in deps :: set d | d in deps[v]
  }

  ghost predicate Known(deps: Dependencies) {
    forall v, d :: v in deps && d in deps[v] ==> d in deps
  }

  ghost function Pending(ds: seq<string>, done: set<string>): nat {
    if ds == [] then 0
    else Pending(ds[..|ds| - 1], done) + if ds[|ds| - 1] in done then 0 else 1
  }

  lemma {:induction false} NonePending(ds: seq<string>, done: set<string>)
    ensures Pending(ds, done) == 0 <==> forall d :: d in ds ==> d in done
  {
    if ds != [] {
      NonePending(ds[..|ds| - 1], done);
      assert ds == ds[..|ds| - 1] + [ds[|ds| - 1]];
    }
  }

  /** Finishing `u` lowers the count by the number of times `u` occurs. */
  lemma {:induction false} FinishOne(ds: seq<string>, done: set<string>, u: string)
    requires u !in done
    ensures Pending(ds, done + {u}) == Pending(ds, done) - multiset(ds)[u]
  {
    if ds != [] {
      FinishOne(ds[..|ds| - 1], done, u);
      assert ds == ds[..|ds| - 1] + [ds[|ds| - 1]];
    }
  }

  lemma {:induction false} PendingAtStart(ds: seq<string>)
    ensures Pending(ds, {}) == |ds|
  {
    if ds != [] {
      PendingAtStart(ds[..|ds| - 1]);
    }
  }

  lemma {:induction false} PendingShrinks(ds: seq<string>, less: set<string>, more: set<string>)
    requires less <= more
    ensures Pending(ds, more) <= Pending(ds, less)
  {
    if ds != [] {
      PendingShrinks(ds[..|ds| - 1], less, more);
    }
  }

  /** The `dependents` table is the dependency table read backwards, with multiplicity. */
  ghost predicate Reversed(deps: Dependencies, dependents: map<string, seq<string>>) {
    && (forall u, v :: u in dependents && v in dependents[u] ==> v in deps)
    && (forall u, v :: v in deps ==> Count(dependents, u, v) == multiset(deps[v])[u])
  }

  ghost function Count(dependents: map<string, seq<string>>, u: string, v: string): nat {
    if u in dependents then multiset(dependents[u])[v] else 0
  }

  ghost predicate Counted(deps: Dependencies, indegree: map<string, int>, done: set<string>) {
    indegree.Keys == deps.Keys && forall v :: v in deps ==> indegree[v] == Pending(deps[v], done)
  }

  ghost function Members(s: seq<string>): set<string> {
    set x | x in s
  }

  /** The nodes that a round which finishes `current` after `done` makes ready. */
  ghost function NewlyReady(deps: Dependencies, done: set<string>, current: seq<string>): set<string> {
    set v | v in deps && Pending(deps[v], done) > 0 && Pending(deps[v], done + Members(current)) == 0
  }

  /** In terms of the graph: the nodes with nothing pending after round `k` are the first `k + 1` layers. */
  lemma ReadyIsPlaced(deps: Dependencies, k: nat, v: string)
    requires v in deps
    ensures Pending(deps[v], Placed(GraphOf(deps), k)) == 0 <==> v in Placed(GraphOf(deps), k + 1)
  {
    NonePending(deps[v], Placed(GraphOf(deps), k));
    assert GraphOf(deps)[v] == set d | d in deps[v];
  }

  lemma NextLayer(deps: Dependencies, k: nat, current: seq<string>)
    requires Members(current) == Layer(GraphOf(deps), k)
    ensures Placed(GraphOf(deps), k) + Members(current) == Placed(GraphOf(deps), k + 1)
    ensures NewlyReady(deps, Placed(GraphOf(deps), k), current) == Layer(GraphOf(deps), k + 1)
  {
    var g := GraphOf(deps);
    PlacedGrows(g, k, k + 1);
    PlacedGrows(g, k + 1, k + 2);
    assert Placed(g, k) + Members(current) == Placed(g, k + 1);
    forall v | v in deps
      ensures v in NewlyReady(deps, Placed(g, k), current) <==> v in Layer(g, k + 1)
    {
      ReadyIsPlaced(deps, k, v);
      ReadyIsPlaced(deps, k + 1, v);
    }
  }

  // ---- Building the dependents table

  lemma CountedAtStart(deps: Dependencies, indegree: map<string, int>)
    requires indegree.Keys == deps.Keys && forall v :: v in deps ==> indegree[v] == |deps[v]|
    ensures Counted(deps, indegree, {})
  {
    forall v | v in deps
      ensures indegree[v] == Pending(deps[v], {})
    {
      PendingAtStart(deps[v]);
    }
  }

  /** `dependents[dep].append(id)` on a `defaultdict(list)`. */
  function Append(table: map<string, seq<string>>, dep: string, id: string): map<string, seq<string>> {
    table[dep := (if dep in table then table[dep] else []) + [id]]
  }

  /** `after` is `before` with `id` added once for every occurrence in `names`. */
  ghost predicate Extended(
    before: map<string, seq<string>>, after: map<string, seq<string>>, id: string, names: seq<string>)
  {
    && (forall u, v :: Count(after, u, v) == Count(before, u, v) + if v == id then multiset(names)[u] else 0)
    && (forall u, v :: u in after && v in after[u] ==> v == id || (u in before && v in before[u]))
  }

  lemma ExtendOnce(
    before: map<string, seq<string>>, table: map<string, seq<string>>, id: string, names: seq<string>, dep: string)
    requires Extended(before, table, id, names)
    ensures Extended(before, Append(table, dep, id), id, names + [dep])
  {
    var after := Append(table, dep, id);
    forall u, v
      ensures Count(after, u, v) == Count(before, u, v) + if v == id then multiset(names + [dep])[u] else 0
    {
      assert Count(table, u, v) == Count(before, u, v) + if v == id then multiset(names)[u] else 0;
    }
  }

  lemma ExtendReversed(deps: Dependencies, before: map<string, seq<string>>, id: string, names: seq<string>,
                       after: map<string, seq<string>>)
    requires Reversed(deps, before) && id !in deps && Extended(before, after, id, names)
    ensures Reversed(deps[id := names], after)
  {
    forall u, v | v in deps[id := names]
      ensures Count(after, u, v) == multiset(deps[id := names][v])[u]
    {
      if v == id && u in before {
        assert v !in before[u];
      }
    }
  }

  // ---- One round

  /** `next` are the nodes that became ready since `start`. */
  ghost predicate ReadySince(deps: Dependencies, indegree: map<string, int>, start: set<string>, next: seq<string>)
    requires indegree.Keys == deps.Keys
  {
    Distinct(next) && forall v :: v in next <==> v in deps && Pending(deps[v], start) > 0 && indegree[v] == 0
  }

  /** In the middle of finishing one node: `seen` of its dependents have been decremented. */
  ghost predicate PartlyCounted(deps: Dependencies, indegree: map<string, int>, done: set<string>, seen: seq<string>) {
    indegree.Keys == deps.Keys && forall v :: v in deps ==> indegree[v] == Pending(deps[v], done) - multiset(seen)[v]
  }

  /** `all` lists every node once for each time it depends on `u`. */
  ghost predicate AreDependents(deps: Dependencies, u: string, all: seq<string>) {
    && (forall v :: v in all ==> v in deps)
    && (forall v :: v in deps ==> multiset(all)[v] == multiset(deps[v])[u])
  }

  /** A dependent still to be decremented has a positive count, and had something pending at the start. */
  lemma CountIsPositive(deps: Dependencies, indegree: map<string, int>, start: set<string>, done: set<string>,
                        u: string,
                        all: seq<string>, j: nat)
    requires start <= done && u !in done && j < |all| && all[j] in deps
    requires multiset(all)[all[j]] == multiset(deps[all[j]])[u]
    requires PartlyCounted(deps, indegree, done, all[..j])
    ensures indegree[all[j]] > 0 && Pending(deps[all[j]], start) > 0
  {
    var w := all[j];
    assert all == all[..j] + [w] + all[j + 1..];
    FinishOne(deps[w], done, u);
    PendingShrinks(deps[w], start, done);
  }

  function Lowered(indegree: map<string, int>, w: string): map<string, int>
    requires w in indegree
  {
    indegree[w := indegree[w] - 1]
  }

  /** A node joins the list when nothing is pending any more. */
  function Listed(indegree: map<string, int>, w: string, next: seq<string>): seq<string>
    requires w in indegree
  {
    if indegree[w] == 0 then next + [w] else next
  }

  lemma DecrementKeepsCounts(deps: Dependencies, indegree: map<string, int>, done: set<string>, all: seq<string>,
                             j: nat) returns (after: map<string, int>)
    requires j < |all| && all[j] in deps && PartlyCounted(deps, indegree, done, all[..j])
    ensures after == Lowered(indegree, all[j]) && PartlyCounted(deps, after, done, all[..j + 1])
  {
    assert all[..j + 1] == all[..j] + [all[j]];
    after := Lowered(indegree, all[j]);
  }

  lemma DecrementKeepsReady(deps: Dependencies, indegree: map<string, int>, start: set<string>, w: string,
                            next: seq<string>) returns (list: seq<string>)
    requires indegree.Keys == deps.Keys && ReadySince(deps, indegree, start, next)
    requires w in deps && indegree[w] > 0 && Pending(deps[w], start) > 0
    ensures list == Listed(Lowered(indegree, w), w, next) && ReadySince(deps, Lowered(indegree, w), start, list)
  {
    list := Listed(Lowered(indegree, w), w, next);
  }

  /** Decrementing one more dependent: it becomes ready exactly when its count reaches zero. */
  lemma DecrementKeeps(deps: Dependencies, indegree: map<string, int>, start: set<string>, done: set<string>, u: string,
                       all: seq<string>, j: nat, next: seq<string>)
    returns (after: map<string, int>, list: seq<string>)
    requires start <= done && u !in done && j < |all| && AreDependents(deps, u, all)
    requires PartlyCounted(deps, indegree, done, all[..j]) && ReadySince(deps, indegree, start, next)
    ensures all[j] in indegree && after == Lowered(indegree, all[j]) && list == Listed(after, all[j], next)
    ensures PartlyCounted(deps, after, done, all[..j + 1]) && ReadySince(deps, after, start, list)
  {
    assert all[j] in all;
    CountIsPositive(deps, indegree, start, done, u, all, j);
    after := DecrementKeepsCounts(deps, indegree, done, all, j);
    list := DecrementKeepsReady(deps, indegree, start, all[j], next);
  }

  lemma DependentsOf(deps: Dependencies, dependents: map<string, seq<string>>, u: string)
    requires Reversed(deps, dependents)
    ensures AreDependents(deps, u, if u in dependents then dependents[u] else [])
  {
    forall v | v in deps
      ensures multiset(if u in dependents then dependents[u] else [])[v] == multiset(deps[v])[u]
    {
      assert Count(dependents, u, v) == multiset(deps[v])[u];
    }
  }

  lemma NodeFinished(deps: Dependencies, indegree: map<string, int>, done: set<string>, u: string, all: seq<string>)
    requires u !in done && PartlyCounted(deps, indegree, done, all) && AreDependents(deps, u, all)
    ensures Counted(deps, indegree, done + {u})
  {
    forall v | v in deps
      ensures indegree[v] == Pending(deps[v], done + {u})
    {
      FinishOne(deps[v], done, u);
    }
  }
}
