/** Whole runs of messages: what a task list converges to. */
module TaskConvergence {
  import opened Wrappers
  import opened TaskMerge

  ghost predicate Said(ms: seq<Message>, id: int, parse: DateParser, l: Level) {
    exists i :: 0 <= i < |ms| && Says(ms[i], id).Some? && LevelOf(Says(ms[i], id).value, parse) == l
  }

  lemma SaidFirst(ms: seq<Message>, id: int, parse: DateParser, l: Level)
    requires ms != []
    ensures Said(ms, id, parse, l) <==>
              || (Says(ms[0], id).Some? && LevelOf(Says(ms[0], id).value, parse) == l)
              || Said(ms[1..], id, parse, l)
  {
    assert forall i :: 1 <= i < |ms| ==> ms[i] == ms[1..][i - 1];
  }

  /** A task in the list ends at the highest level of its own and of everything said about it. */
  lemma {:induction false} EndsAtMaximum(current: seq<Record>, ms: seq<Message>, id: int, parse: DateParser)
    requires AllFull(ms) && Shown(current, id, parse).Some?
    ensures var start, end := Shown(current, id, parse).value, Shown(Run(current, ms, parse), id, parse);
            && end.Some? && AtLeast(end.value, start) && (end.value == start || Said(ms, id, parse, end.value))
            && forall l :: Said(ms, id, parse, l) ==> AtLeast(end.value, l)
    decreases |ms|
  {
    if ms != [] {
      MessageRaisesLevel(current, ms[0], id, parse);
      EndsAtMaximum(Apply(current, ms[0], parse), ms[1..], id, parse);
      var end := Shown(Run(current, ms, parse), id, parse).value;
      SaidFirst(ms, id, parse, end);
      forall l | Said(ms, id, parse, l)
        ensures AtLeast(end, l)
      {
        SaidFirst(ms, id, parse, l);
      }
    }
  }

  ghost predicate SameMessages(a: seq<Message>, b: seq<Message>) {
    forall m :: m in a <==> m in b
  }

  lemma SameSaid(a: seq<Message>, b: seq<Message>, id: int, parse: DateParser, l: Level)
    requires SameMessages(a, b)
    ensures Said(a, id, parse, l) <==> Said(b, id, parse, l)
  {
    if Said(a, id, parse, l) {
      var i :| 0 <= i < |a| && Says(a[i], id).Some? && LevelOf(Says(a[i], id).value, parse) == l;
      assert a[i] in b;
    }
    if Said(b, id, parse, l) {
      var i :| 0 <= i < |b| && Says(b[i], id).Some? && LevelOf(Says(b[i], id).value, parse) == l;
      assert b[i] in a;
    }
  }

  /** For a task in the list the level reached does not depend on the order of delivery, nor on repetition. */
  lemma OrderIsIrrelevant(current: seq<Record>, a: seq<Message>, b: seq<Message>, id: int, parse: DateParser)
    requires AllFull(a) && AllFull(b) && SameMessages(a, b) && Shown(current, id, parse).Some?
    ensures Shown(Run(current, a, parse), id, parse) == Shown(Run(current, b, parse), id, parse)
  {
    EndsAtMaximum(current, a, id, parse);
    EndsAtMaximum(current, b, id, parse);
    var x, y := Shown(Run(current, a, parse), id, parse).value, Shown(Run(current, b, parse), id, parse).value;
    SameSaid(a, b, id, parse, x);
    SameSaid(a, b, id, parse, y);
  }

  /** A payload or snapshot entry that sets every field of a task. */
  predicate Whole(r: Record, keys: set<string>) {
    Full(r) && r.rest.Keys == keys
  }

  ghost predicate SaysRecord(ms: seq<Message>, id: int, r: Record) {
    exists i :: 0 <= i < |ms| && Says(ms[i], id) == Some(r)
  }

  lemma SpreadWhole(task: Record, patch: Record, keys: set<string>)
    requires Whole(task, keys) && Whole(patch, keys)
    ensures Spread(task, patch) == patch
  {
    assert task.rest + patch.rest == patch.rest;
  }

  lemma MessageKeepsOneRecord(current: seq<Record>, m: Message, id: int, keys: set<string>, parse: DateParser)
    requires Find(current, Some(id)).Some? && Whole(Find(current, Some(id)).value, keys)
    requires Says(m, id).Some? ==> Whole(Says(m, id).value, keys)
    ensures var before, after := Find(current, Some(id)), Find(Apply(current, m, parse), Some(id));
            after.Some? && (after == before || after == Says(m, id))
  {
    FoundHasId(current, Some(id));
    var task, said := Find(current, Some(id)).value, Says(m, id);
    if said.Some? {
      SpreadWhole(task, said.value, keys);
    }
    match m
    case StatusChanged(payload) => FindAfterStatus(current, payload, id, parse);
    case Snapshot(tasks) =>
      FindAfterSnapshot(current, tasks, id, parse);
      FoundHasId(tasks, Some(id));
  }

  /** When everything said about a task is whole, the task ends as one of the records said, or as it was. */
  lemma {:induction false} EndsAsOneRecord(current: seq<Record>, ms: seq<Message>, id: int, keys: set<string>,
                                           parse: DateParser)
    requires Find(current, Some(id)).Some? && Whole(Find(current, Some(id)).value, keys)
    requires forall r :: SaysRecord(ms, id, r) ==> Whole(r, keys)
    ensures var start, end := Find(current, Some(id)), Find(Run(current, ms, parse), Some(id));
            end.Some? && (end == start || SaysRecord(ms, id, end.value))
    decreases |ms|
  {
    if ms != [] {
      var next, rest := Apply(current, ms[0], parse), ms[1..];
      assert forall r :: SaysRecord(rest, id, r) ==> SaysRecord(ms, id, r) by {
        assert forall i :: 0 <= i < |rest| ==> rest[i] == ms[i + 1];
      }
      assert Says(ms[0], id).Some? ==> SaysRecord(ms, id, Says(ms[0], id).value);
      MessageKeepsOneRecord(current, ms[0], id, keys, parse);
      EndsAsOneRecord(next, rest, id, keys, parse);
    }
  }

  /** Records of one level are the same record. */
  ghost predicate TiesAgree(start: Record, ms: seq<Message>, id: int, parse: DateParser) {
    forall r, q | (r == start || SaysRecord(ms, id, r)) && (q == start || SaysRecord(ms, id, q)) ::
      LevelOf(r, parse) == LevelOf(q, parse) ==> r == q
  }

  /** Then not only the level but the whole task is independent of the order of delivery. */
  lemma WholeTaskConverges(current: seq<Record>, a: seq<Message>, b: seq<Message>, id: int, keys: set<string>,
                           parse: DateParser)
    requires AllFull(a) && AllFull(b) && SameMessages(a, b)
    requires Find(current, Some(id)).Some? && Whole(Find(current, Some(id)).value, keys)
    requires forall r :: SaysRecord(a, id, r) ==> Whole(r, keys)
    requires TiesAgree(Find(current, Some(id)).value, a, id, parse)
    ensures Find(Run(current, a, parse), Some(id)) == Find(Run(current, b, parse), Some(id))
  {
    forall r | SaysRecord(b, id, r)
      ensures SaysRecord(a, id, r)
    {
      var i :| 0 <= i < |b| && Says(b[i], id) == Some(r);
      assert b[i] in a;
    }
    EndsAsOneRecord(current, a, id, keys, parse);
    EndsAsOneRecord(current, b, id, keys, parse);
    OrderIsIrrelevant(current, a, b, id, parse);
  }

  ghost predicate InSomeSnapshot(ms: seq<Message>, id: int) {
    exists i :: 0 <= i < |ms| && ms[i].Snapshot? && Says(ms[i], id).Some?
  }

  /** A task that is not in the list appears exactly when a snapshot holds it... */
  lemma {:induction false} AppearsWithSnapshot(current: seq<Record>, ms: seq<Message>, id: int, parse: DateParser)
    requires AllFull(ms) && Shown(current, id, parse).None?
    ensures Shown(Run(current, ms, parse), id, parse).Some? <==> InSomeSnapshot(ms, id)
    decreases |ms|
  {
    if ms != [] {
      var next := Apply(current, ms[0], parse);
      MessageRaisesLevel(current, ms[0], id, parse);
      assert forall i :: 1 <= i < |ms| ==> ms[i] == ms[1..][i - 1];
      if Shown(next, id, parse).Some? {
        EndsAtMaximum(next, ms[1..], id, parse);
        assert ms[0].Snapshot? && Says(ms[0], id).Some?;
      } else {
        AppearsWithSnapshot(next, ms[1..], id, parse);
        assert !(ms[0].Snapshot? && Says(ms[0], id).Some?);
      }
    }
  }

  lemma {:induction false} RunSplits(current: seq<Record>, a: seq<Message>, b: seq<Message>, parse: DateParser)
    ensures Run(current, a + b, parse) == Run(Run(current, a, parse), b, parse)
    decreases |a|
  {
    if a == [] {
      assert a + b == b;
    } else {
      assert (a + b)[1..] == a[1..] + b;
      RunSplits(Apply(current, a[0], parse), a[1..], b, parse);
    }
  }

  /** Message `k` is the first snapshot that holds the task. */
  ghost predicate FirstHolds(ms: seq<Message>, k: nat, id: int) {
    k < |ms| && ms[k].Snapshot? && Says(ms[k], id).Some? && !InSomeSnapshot(ms[..k], id)
  }

  /** The highest of the levels said. */
  ghost predicate IsHighest(ms: seq<Message>, id: int, parse: DateParser, l: Level) {
    Said(ms, id, parse, l) && forall m :: Said(ms, id, parse, m) ==> AtLeast(l, m)
  }

  /** ... and its level is then the highest said from that snapshot on. */
  lemma EndsAtHighestSince(current: seq<Record>, ms: seq<Message>, k: nat, id: int, parse: DateParser)
    requires AllFull(ms) && Shown(current, id, parse).None? && FirstHolds(ms, k, id)
    ensures var end := Shown(Run(current, ms, parse), id, parse);
            end.Some? && IsHighest(ms[k..], id, parse, end.value)
  {
    var before, since := ms[..k], ms[k..];
    assert ms == before + since && since[0] == ms[k];
    RunSplits(current, before, since, parse);
    AppearsWithSnapshot(current, before, id, parse);
    var met := Run(current, before, parse);
    MessageRaisesLevel(met, since[0], id, parse);
    EndsAtMaximum(Apply(met, since[0], parse), since[1..], id, parse);
    forall l
      ensures Said(since, id, parse, l) <==>
                l == LevelOf(Says(since[0], id).value, parse) || Said(since[1..], id, parse, l)
    {
      SaidFirst(since, id, parse, l);
    }
  }

  lemma SaidInParts(a: seq<Message>, b: seq<Message>, id: int, parse: DateParser, l: Level)
    ensures Said(a + b, id, parse, l) <==> Said(a, id, parse, l) || Said(b, id, parse, l)
  {
    var all := a + b;
    if i :| 0 <= i < |a| && Says(a[i], id).Some? && LevelOf(Says(a[i], id).value, parse) == l {
      assert all[i] == a[i];
    }
    if i :| 0 <= i < |b| && Says(b[i], id).Some? && LevelOf(Says(b[i], id).value, parse) == l {
      assert all[|a| + i] == b[i];
    }
  }

  /** So it is the highest of everything said about the task if and only if every level said before that snapshot is
      matched or exceeded by one said from it on. */
  lemma NothingLostIff(current: seq<Record>, ms: seq<Message>, k: nat, id: int, parse: DateParser)
    requires AllFull(ms) && Shown(current, id, parse).None? && FirstHolds(ms, k, id)
    ensures var end := Shown(Run(current, ms, parse), id, parse);
            && end.Some?
            && (IsHighest(ms, id, parse, end.value)
                <==> forall l :: Said(ms[..k], id, parse, l) ==> Matched(ms[k..], id, parse, l))
  {
    EndsAtHighestSince(current, ms, k, id, parse);
    var end := Shown(Run(current, ms, parse), id, parse).value;
    assert ms == ms[..k] + ms[k..];
    forall l
      ensures Said(ms, id, parse, l) <==> Said(ms[..k], id, parse, l) || Said(ms[k..], id, parse, l)
    {
      SaidInParts(ms[..k], ms[k..], id, parse, l);
    }
    forall l
      ensures Matched(ms[k..], id, parse, l) <==> AtLeast(end, l)
    {
      if AtLeast(end, l) {
        assert Said(ms[k..], id, parse, end);
      }
    }
  }

  ghost predicate Matched(ms: seq<Message>, id: int, parse: DateParser, l: Level) {
    exists m :: Said(ms, id, parse, m) && AtLeast(m, l)
  }

  /** The condition can fail: an event that comes before the snapshot is lost; delivered the other way round it would
      have counted. */
  lemma EarlyEventIsLost(parse: DateParser)
    requires parse("1") == Some(1)
    ensures var pending: Record := Record(Some(7), Some("pending"), Some("1"), map[]);
            var event, snapshot := StatusChanged(pending.(status := Some("completed"))), Snapshot([pending]);
            && Shown(Run([], [event, snapshot], parse), 7, parse) == Some(Level(1, 0))
            && Shown(Run([], [snapshot, event], parse), 7, parse) == Some(Level(1, 2))
  {
    var pending: Record := Record(Some(7), Some("pending"), Some("1"), map[]);
    var event, snapshot := StatusChanged(pending.(status := Some("completed"))), Snapshot([pending]);
    var none: seq<Record> := [];
    TwoMessages(none, event, snapshot, parse);
    TwoMessages(none, snapshot, event, parse);
    MessageRaisesLevel(none, event, 7, parse);
    MessageRaisesLevel(none, snapshot, 7, parse);
    MessageRaisesLevel(Apply(none, event, parse), snapshot, 7, parse);
    MessageRaisesLevel(Apply(none, snapshot, parse), event, 7, parse);
    assert Says(snapshot, 7) == Some(pending) && LevelOf(pending, parse) == Level(1, 0);
    assert LevelOf(event.payload, parse) == Level(1, 2);
  }

  lemma TwoMessages(current: seq<Record>, a: Message, b: Message, parse: DateParser)
    ensures Run(current, [a, b], parse) == Apply(Apply(current, a, parse), b, parse)
  {
    assert [a, b][1..] == [b] && [b][1..] == [];
    assert Run(Apply(current, a, parse), [b], parse) == Run(Apply(Apply(current, a, parse), b, parse), [], parse);
  }

  /** A terminal status is never displaced by a status of the same time that is not terminal: nothing of the task
      changes. */
  lemma TerminalStays(current: seq<Record>, m: Message, id: int, parse: DateParser)
    requires FullMessage(m) && Find(current, Some(id)).Some? && Says(m, id).Some?
    requires Rank(Find(current, Some(id)).value.status) == 2 && Rank(Says(m, id).value.status) < 2
    requires Timestamp(Find(current, Some(id)).value, parse) == Timestamp(Says(m, id).value, parse)
    ensures Find(Apply(current, m, parse), Some(id)) == Find(current, Some(id))
  {
    FoundHasId(current, Some(id));
    match m
    case StatusChanged(payload) => FindAfterStatus(current, payload, id, parse);
    case Snapshot(tasks) =>
      FindAfterSnapshot(current, tasks, id, parse);
      FoundHasId(tasks, Some(id));
  }

  // ---- Applying a snapshot twice

  predicate DistinctIds(records: seq<Record>) {
    forall i, j :: 0 <= i < j < |records| ==> records[i].id != records[j].id
  }

  lemma SpreadTwice(task: Record, patch: Record)
    ensures Spread(Spread(task, patch), patch) == Spread(task, patch)
  {
  }

  lemma MergeTwice(task: Record, snapshot: seq<Record>, parse: DateParser)
    ensures Merge(Merge(task, snapshot, parse), snapshot, parse) == Merge(task, snapshot, parse)
  {
    FoundHasId(snapshot, task.id);
    var incoming := Find(snapshot, task.id);
    if incoming.Some? {
      SpreadTwice(task, incoming.value);
    }
  }

  lemma {:induction false} MergeAllTwice(current: seq<Record>, snapshot: seq<Record>, parse: DateParser)
    ensures var once := MergeAll(current, snapshot, parse); MergeAll(once, snapshot, parse) == once
  {
    if current != [] {
      MergeTwice(current[0], snapshot, parse);
      MergeAllTwice(current[1..], snapshot, parse);
    }
  }

  lemma {:induction false} FindInDistinct(records: seq<Record>, k: nat)
    requires DistinctIds(records) && k < |records|
    ensures Find(records, records[k].id) == Some(records[k])
  {
    if k > 0 {
      FindInDistinct(records[1..], k - 1);
    }
  }

  /** Tasks that a snapshot itself brought in are not changed by it. */
  lemma {:induction false} OwnTasksStay(part: seq<Record>, snapshot: seq<Record>, parse: DateParser)
    requires DistinctIds(snapshot) && forall r :: r in part ==> r in snapshot
    ensures MergeAll(part, snapshot, parse) == part
  {
    if part != [] {
      assert part[0] in snapshot;
      var k :| 0 <= k < |snapshot| && snapshot[k] == part[0];
      FindInDistinct(snapshot, k);
      assert Spread(part[0], part[0]) == part[0];
      assert forall r :: r in part[1..] ==> r in part;
      OwnTasksStay(part[1..], snapshot, parse);
    }
  }

  lemma {:induction false} UnknownAreOwn(current: seq<Record>, snapshot: seq<Record>)
    ensures forall r :: r in Unknown(current, snapshot) ==> r in snapshot
    decreases |snapshot|
  {
    if snapshot != [] {
      UnknownAreOwn(current, snapshot[1..]);
      assert forall r :: r in snapshot[1..] ==> r in snapshot;
    }
  }

  lemma {:induction false} MergeAllOfBoth(a: seq<Record>, b: seq<Record>, snapshot: seq<Record>,
                                            parse: DateParser)
    ensures MergeAll(a + b, snapshot, parse) == MergeAll(a, snapshot, parse) + MergeAll(b, snapshot, parse)
  {
    if a == [] {
      assert a + b == b;
    } else {
      assert (a + b)[1..] == a[1..] + b;
      MergeAllOfBoth(a[1..], b, snapshot, parse);
    }
  }

  lemma {:induction false} NothingUnknown(current: seq<Record>, part: seq<Record>)
    requires forall r :: r in part && r.id.Some? ==> Find(current, r.id).Some?
    ensures Unknown(current, part) == []
    decreases |part|
  {
    if part != [] {
      assert part[0] in part;
      assert forall r :: r in part[1..] ==> r in part;
      NothingUnknown(current, part[1..]);
    }
  }

  /** Applying a snapshot with distinct ids a second time changes no value, whatever parts of tasks it holds. */
  lemma SnapshotTwice(current: seq<Record>, snapshot: seq<Record>, parse: DateParser)
    requires DistinctIds(snapshot)
    ensures var once := ApplySnapshot(current, snapshot, parse); ApplySnapshot(once, snapshot, parse) == once
  {
    SecondTime(current, snapshot, parse);
    UnknownAreOwn(current, snapshot);
    OwnTasksStay(Unknown(current, snapshot), snapshot, parse);
  }

  lemma {:induction false} FoundIfIn(records: seq<Record>, r: Record)
    requires r in records
    ensures Find(records, r.id).Some?
  {
    if records[0].id != r.id {
      assert r in records[1..];
      FoundIfIn(records[1..], r);
    }
  }

  lemma {:induction false} MergeAllIsIdentityIff(part: seq<Record>, snapshot: seq<Record>, parse: DateParser)
    ensures MergeAll(part, snapshot, parse) == part <==> forall r :: r in part ==> Merge(r, snapshot, parse) == r
  {
    if part != [] {
      MergeAllIsIdentityIff(part[1..], snapshot, parse);
      assert part == [part[0]] + part[1..];
      assert forall r :: r in part <==> r == part[0] || r in part[1..];
    }
  }

  lemma Cancel(a: seq<Record>, b: seq<Record>, c: seq<Record>)
    ensures a + b == a + c <==> b == c
  {
    if a + b == a + c {
      assert b == (a + b)[|a|..] && c == (a + c)[|a|..];
    }
  }

  /** The second time nothing is appended, and only what the first time appended can change. */
  lemma SecondTime(current: seq<Record>, snapshot: seq<Record>, parse: DateParser)
    ensures var merged, unknown := MergeAll(current, snapshot, parse), Unknown(current, snapshot);
            && ApplySnapshot(current, snapshot, parse) == merged + unknown
            && ApplySnapshot(merged + unknown, snapshot, parse) == merged + MergeAll(unknown, snapshot, parse)
  {
    var merged, unknown := MergeAll(current, snapshot, parse), Unknown(current, snapshot);
    var once := merged + unknown;
    SnapshotAlwaysMerges(current, snapshot, parse);
    SnapshotAlwaysMerges(once, snapshot, parse);
    MergeAllOfBoth(merged, unknown, snapshot, parse);
    MergeAllTwice(current, snapshot, parse);
    forall r | r in snapshot && r.id.Some?
      ensures Find(once, r.id).Some?
    {
      FoundIfIn(snapshot, r);
      FindAfterSnapshot(current, snapshot, r.id.value, parse);
    }
    NothingUnknown(once, snapshot);
  }

  /** In general, with repeated ids too, it changes nothing if and only if no entry that it appended is changed by
      merging it with the snapshot's first entry of its id. */
  lemma SnapshotTwiceIff(current: seq<Record>, snapshot: seq<Record>, parse: DateParser)
    ensures var once := ApplySnapshot(current, snapshot, parse);
            ApplySnapshot(once, snapshot, parse) == once
            <==> forall r :: r in Unknown(current, snapshot) ==> Merge(r, snapshot, parse) == r
  {
    var merged, unknown := MergeAll(current, snapshot, parse), Unknown(current, snapshot);
    SecondTime(current, snapshot, parse);
    Cancel(merged, MergeAll(unknown, snapshot, parse), unknown);
    MergeAllIsIdentityIff(unknown, snapshot, parse);
  }

  /** With a repeated id it can: both copies are appended, and the second time the first overwrites the other. */
  lemma RepeatedIdChangesTwice(parse: DateParser)
    ensures var a: Record := Record(Some(7), None, None, map["title" := "x"]);
            var b := a.(rest := map["title" := "y"]);
            var once := ApplySnapshot([], [a, b], parse);
            once == [a, b] && ApplySnapshot(once, [a, b], parse) == [a, a]
  {
    var a: Record := Record(Some(7), None, None, map["title" := "x"]);
    var b := a.(rest := map["title" := "y"]);
    var none: seq<Record> := [];
    assert [a, b][1..] == [b] && [b][1..] == [];
    assert Unknown(none, []) == [] && Unknown(none, [b]) == [b] + Unknown(none, []);
    assert Unknown(none, [a, b]) == [a] + Unknown(none, [b]);
    assert MergeAll(none, [a, b], parse) == none;
    var once := [a, b];
    assert Find(once, Some(7)) == Some(a) && Spread(b, a) == a && Spread(a, a) == a;
    NothingUnknown(once, once);
    assert MergeAll([b], once, parse) == [a] && MergeAll(once, once, parse) == [a, a];
    SnapshotAlwaysMerges(none, once, parse);
    SnapshotAlwaysMerges(once, once, parse);
  }
}
