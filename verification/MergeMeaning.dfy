/** What a message does to every entry of the task list, without the functions that do it. */
module MergeMeaning {
  import opened Wrappers
  import opened TaskMerge

  /** When a record was written, in what `Date.parse` makes of it; 0 if it does not say or is no date. */
  function WrittenAt(r: Record, parse: DateParser): int {
    match r.updatedAt
    case None => 0
    case Some(text) => match parse(text) case None => 0 case Some(time) => time
  }

  predicate Ended(status: Option<string>) {
    status in {Some("completed"), Some("failed"), Some("cancelled")}
  }

  predicate Active(status: Option<string>) {
    status in {Some("running"), Some("waiting_approval")}
  }

  /** The newer record wins; at equal times it is not replaced by one whose status is further from its end. */
  predicate Replaces(current: Record, next: Record, parse: DateParser) {
    || WrittenAt(current, parse) < WrittenAt(next, parse)
    || (&& WrittenAt(current, parse) == WrittenAt(next, parse)
        && (Ended(current.status) ==> Ended(next.status))
        && (Active(current.status) ==> Active(next.status) || Ended(next.status)))
  }

  lemma ReplacesMeans(current: Record, next: Record, parse: DateParser)
    ensures ShouldApply(current, next, parse) <==> Replaces(current, next, parse)
  {
    RankMeans(current.status);
    RankMeans(next.status);
  }

  lemma RankMeans(status: Option<string>)
    ensures Rank(status) == if Ended(status) then 2 else if Active(status) then 1 else 0
  {
  }

  /** The fields that `patch` has, and those of `task` for the rest. */
  ghost predicate IsPatched(task: Record, patch: Record, r: Record) {
    && r.id == (if patch.id.Some? then patch.id else task.id)
    && r.status == (if patch.status.Some? then patch.status else task.status)
    && r.updatedAt == (if patch.updatedAt.Some? then patch.updatedAt else task.updatedAt)
    && r.rest.Keys == task.rest.Keys + patch.rest.Keys
    && forall key :: key in r.rest ==> r.rest[key] == if key in patch.rest then patch.rest[key] else task.rest[key]
  }

  /** A status event patches the tasks with its id that it replaces, and no others. */
  lemma {:induction false} StatusChangesExactly(current: seq<Record>, payload: Record, parse: DateParser, i: nat)
    requires i < |current|
    ensures var after := ApplyStatus(current, payload, parse);
            && |after| == |current|
            && if current[i].id == payload.id && Replaces(current[i], payload, parse)
               then IsPatched(current[i], payload, after[i]) else after[i] == current[i]
  {
    ReplacesMeans(current[i], payload, parse);
    if i > 0 {
      StatusChangesExactly(current[1..], payload, parse, i - 1);
    } else if |current| > 1 {
      StatusChangesExactly(current[1..], payload, parse, 0);
    }
  }

  /** Record `j` is the first of the snapshot with the id of the task. */
  ghost predicate IsFirstFor(task: Record, snapshot: seq<Record>, j: nat) {
    j < |snapshot| && snapshot[j].id == task.id && forall k :: 0 <= k < j ==> snapshot[k].id != task.id
  }

  lemma {:induction false} FindMeans(snapshot: seq<Record>, task: Record)
    ensures Find(snapshot, task.id).None? <==> forall j: nat :: !IsFirstFor(task, snapshot, j)
    ensures forall j: nat :: IsFirstFor(task, snapshot, j) ==> Find(snapshot, task.id) == Some(snapshot[j])
  {
    if snapshot != [] && snapshot[0].id != task.id {
      FindMeans(snapshot[1..], task);
      forall j: nat
        ensures IsFirstFor(task, snapshot, j) <==> j > 0 && IsFirstFor(task, snapshot[1..], j - 1)
      {
        assert forall k :: 1 <= k < |snapshot| ==> snapshot[k] == snapshot[1..][k - 1];
      }
      if j: nat :| IsFirstFor(task, snapshot[1..], j) {
        assert IsFirstFor(task, snapshot, j + 1);
      }
    } else if snapshot != [] {
      assert IsFirstFor(task, snapshot, 0);
    }
  }

  lemma {:induction false} MergedAt(current: seq<Record>, snapshot: seq<Record>, parse: DateParser, i: nat)
    requires i < |current|
    ensures |MergeAll(current, snapshot, parse)| == |current|
    ensures MergeAll(current, snapshot, parse)[i] == Merge(current[i], snapshot, parse)
  {
    if i > 0 {
      MergedAt(current[1..], snapshot, parse, i - 1);
    } else if |current| > 1 {
      MergedAt(current[1..], snapshot, parse, 0);
    }
  }

  /** A snapshot patches each task with the first of its records that has the task's id, if the patched task replaces
      it; a task without such a record stays as it is. */
  lemma SnapshotChangesExactly(current: seq<Record>, snapshot: seq<Record>, parse: DateParser, i: nat, j: nat)
    requires i < |current|
    ensures var after := ApplySnapshot(current, snapshot, parse);
            && |after| >= |current|
            && ((forall k: nat :: !IsFirstFor(current[i], snapshot, k)) ==> after[i] == current[i])
            && (IsFirstFor(current[i], snapshot, j) ==>
                  exists patched :: IsPatched(current[i], snapshot[j], patched)
                    && after[i] == if Replaces(current[i], patched, parse) then patched else current[i])
  {
    SnapshotAlwaysMerges(current, snapshot, parse);
    MergedAt(current, snapshot, parse, i);
    FindMeans(snapshot, current[i]);
    if IsFirstFor(current[i], snapshot, j) {
      var patched := Spread(current[i], snapshot[j]);
      ReplacesMeans(current[i], patched, parse);
      assert IsPatched(current[i], snapshot[j], patched);
    }
  }

  /** Record `j` of the snapshot has an id that no task of the list has. */
  predicate IsNew(current: seq<Record>, snapshot: seq<Record>, j: nat) {
    j < |snapshot| && snapshot[j].id.Some? && forall i :: 0 <= i < |current| ==> current[i].id != snapshot[j].id
  }

  ghost predicate Appends(current: seq<Record>, snapshot: seq<Record>, appended: seq<Record>, places: seq<nat>) {
    && |places| == |appended|
    && (forall k, l :: 0 <= k < l < |places| ==> places[k] < places[l])
    && (forall k :: 0 <= k < |places| ==> IsNew(current, snapshot, places[k]) && appended[k] == snapshot[places[k]])
    && forall j: nat :: IsNew(current, snapshot, j) ==> j in places
  }

  lemma {:induction false} NoneFound(current: seq<Record>, id: Option<int>)
    ensures Find(current, id).None? <==> forall i :: 0 <= i < |current| ==> current[i].id != id
  {
    if current != [] && current[0].id != id {
      NoneFound(current[1..], id);
      assert forall i :: 1 <= i < |current| ==> current[i] == current[1..][i - 1];
      assert forall i :: 0 <= i < |current| - 1 ==> current[1..][i] == current[i + 1];
    }
  }

  lemma {:induction false} UnknownOfLast(current: seq<Record>, front: seq<Record>, last: Record)
    ensures Unknown(current, front + [last]) ==
            Unknown(current, front) + if last.id.Some? && Find(current, last.id).None? then [last] else []
    decreases |front|
  {
    if front == [] {
      assert [] + [last] == [last] && [last][1..] == [];
    } else {
      UnknownOfLast(current, front[1..], last);
      assert (front + [last])[1..] == front[1..] + [last];
    }
  }

  lemma {:induction false} UnknownPlaces(current: seq<Record>, snapshot: seq<Record>) returns (places: seq<nat>)
    ensures Appends(current, snapshot, Unknown(current, snapshot), places)
  {
    if snapshot == [] {
      places := [];
    } else {
      var front, last := snapshot[..|snapshot| - 1], snapshot[|snapshot| - 1];
      var before := UnknownPlaces(current, front);
      UnknownOfLast(current, front, last);
      NoneFound(current, last.id);
      assert snapshot == front + [last];
      places := OneRecordMore(current, front, last, Unknown(current, front), before);
    }
  }

  lemma NewInFront(current: seq<Record>, front: seq<Record>, last: Record, j: nat)
    requires j < |front|
    ensures IsNew(current, front + [last], j) <==> IsNew(current, front, j)
    ensures (front + [last])[j] == front[j]
  {
  }

  lemma OneRecordMore(current: seq<Record>, front: seq<Record>, last: Record, appended: seq<Record>, before: seq<nat>)
    returns (places: seq<nat>)
    requires Appends(current, front, appended, before)
    ensures Appends(current, front + [last],
                    appended + if IsNew(current, front + [last], |front|) then [last] else [], places)
  {
    var isNew := IsNew(current, front + [last], |front|);
    places := before + if isNew then [|front|] else [];
    forall k | 0 <= k < |places|
      ensures IsNew(current, front + [last], places[k])
      ensures (appended + if isNew then [last] else [])[k] == (front + [last])[places[k]]
    {
      if k < |before| {
        NewInFront(current, front, last, before[k]);
      }
    }
    forall j: nat | IsNew(current, front + [last], j)
      ensures j in places
    {
      if j < |front| {
        NewInFront(current, front, last, j);
        assert j in before;
      } else {
        assert places[|before|] == j;
      }
    }
  }

  /** Behind the tasks of the list a snapshot appends its records with new ids, in its order. */
  lemma SnapshotAppendsExactly(current: seq<Record>, snapshot: seq<Record>, parse: DateParser)
    returns (places: seq<nat>)
    ensures var after := ApplySnapshot(current, snapshot, parse);
            |after| >= |current| && Appends(current, snapshot, after[|current|..], places)
  {
    SnapshotAlwaysMerges(current, snapshot, parse);
    if current != [] {
      MergedAt(current, snapshot, parse, 0);
    }
    var after := ApplySnapshot(current, snapshot, parse);
    assert after[|current|..] == Unknown(current, snapshot);
    places := UnknownPlaces(current, snapshot);
  }
}
