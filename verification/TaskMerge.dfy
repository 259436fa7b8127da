/** How a task list in the browser takes in status events and snapshots: last writer wins, by time and then by rank. */
module TaskMerge {
  import opened Wrappers

  /** A task or a part of one; a field that is `None`, or a key that is missing, is not set. */
  datatype Record =
    Record(id: Option<int>, status: Option<string>, updatedAt: Option<string>, rest: map<string, string>)

  datatype Message = StatusChanged(payload: Record) | Snapshot(tasks: seq<Record>)

  datatype Level = Level(time: int, rank: int)

  /** `Date.parse`: `None` for a text that is no date. */
  type DateParser = string -> Option<int>

  const TERMINAL := {"completed", "failed", "cancelled"}

  function Timestamp(r: Record, parse: DateParser): int {
    if r.updatedAt.Some? && parse(r.updatedAt.value).Some? then parse(r.updatedAt.value).value else 0
  }

  function Rank(status: Option<string>): int {
    if status.None? then 0
    else if status.value in TERMINAL then 2
    else if status.value == "running" || status.value == "waiting_approval" then 1
    else 0
  }

  function LevelOf(r: Record, parse: DateParser): Level {
    Level(Timestamp(r, parse), Rank(r.status))
  }

  function ShouldApply(current: Record, next: Record, parse: DateParser): bool {
    var currentTime, nextTime := Timestamp(current, parse), Timestamp(next, parse);
    if nextTime != currentTime then nextTime > currentTime else Rank(next.status) >= Rank(current.status)
  }

  /** What the patch sets, and the task for the rest. */
  function Spread(task: Record, patch: Record): Record {
    Record(if patch.id.Some? then patch.id else task.id,
           if patch.status.Some? then patch.status else task.status,
           if patch.updatedAt.Some? then patch.updatedAt else task.updatedAt,
           task.rest + patch.rest)
  }

  function Find(records: seq<Record>, id: Option<int>): Option<Record> {
    if records == [] then None
    else if records[0].id == id then Some(records[0])
    else Find(records[1..], id)
  }

  // ---- Status events

  function TakeStatus(task: Record, payload: Record, parse: DateParser): Record {
    if task.id == payload.id && ShouldApply(task, payload, parse) then Spread(task, payload) else task
  }

  function ApplyStatus(current: seq<Record>, payload: Record, parse: DateParser): seq<Record> {
    if current == [] then [] else [TakeStatus(current[0], payload, parse)] + ApplyStatus(current[1..], payload, parse)
  }

  // ---- Snapshots

  function Merge(task: Record, snapshot: seq<Record>, parse: DateParser): Record {
    var incoming := Find(snapshot, task.id);
    if incoming.None? then task
    else
      var candidate := Spread(task, incoming.value);
      if ShouldApply(task, candidate, parse) then candidate else task
  }

  predicate Merges(task: Record, snapshot: seq<Record>, parse: DateParser) {
    var incoming := Find(snapshot, task.id);
    incoming.Some? && ShouldApply(task, Spread(task, incoming.value), parse)
  }

  function MergeAll(current: seq<Record>, snapshot: seq<Record>, parse: DateParser): seq<Record> {
    if current == [] then [] else [Merge(current[0], snapshot, parse)] + MergeAll(current[1..], snapshot, parse)
  }

  predicate AnyMerges(current: seq<Record>, snapshot: seq<Record>, parse: DateParser) {
    current != [] && (Merges(current[0], snapshot, parse) || AnyMerges(current[1..], snapshot, parse))
  }

  function Unknown(current: seq<Record>, snapshot: seq<Record>): seq<Record>
    decreases |snapshot|
  {
    if snapshot == [] then []
    else if snapshot[0].id.Some? && Find(current, snapshot[0].id).None?
    then [snapshot[0]] + Unknown(current, snapshot[1..])
    else Unknown(current, snapshot[1..])
  }

  /** `applySnapshotTasks`: the list itself when nothing changed. */
  function ApplySnapshot(current: seq<Record>, snapshot: seq<Record>, parse: DateParser): seq<Record> {
    var appended := Unknown(current, snapshot);
    if AnyMerges(current, snapshot, parse) || appended != [] then MergeAll(current, snapshot, parse) + appended
    else current
  }

  function Apply(current: seq<Record>, m: Message, parse: DateParser): seq<Record> {
    match m
    case StatusChanged(payload) => ApplyStatus(current, payload, parse)
    case Snapshot(tasks) => ApplySnapshot(current, tasks, parse)
  }

  function Run(current: seq<Record>, ms: seq<Message>, parse: DateParser): seq<Record>
    decreases |ms|
  {
    if ms == [] then current else Run(Apply(current, ms[0], parse), ms[1..], parse)
  }

  // ---- The order of levels

  predicate AtLeast(a: Level, b: Level) {
    a.time > b.time || (a.time == b.time && a.rank >= b.rank)
  }

  function Higher(a: Level, b: Level): (r: Level)
    ensures AtLeast(r, a) && AtLeast(r, b) && (r == a || r == b)
  {
    if AtLeast(b, a) then b else a
  }

  /** A full payload or task says when it was written and in which status. */
  predicate Full(r: Record) {
    r.id.Some? && r.status.Some? && r.updatedAt.Some?
  }

  predicate FullMessage(m: Message) {
    match m
    case StatusChanged(payload) => Full(payload)
    case Snapshot(tasks) => forall i :: 0 <= i < |tasks| ==> Full(tasks[i])
  }

  predicate AllFull(ms: seq<Message>) {
    forall i :: 0 <= i < |ms| ==> FullMessage(ms[i])
  }

  /** The level a list shows for a task. */
  function Shown(current: seq<Record>, id: int, parse: DateParser): Option<Level> {
    var task := Find(current, Some(id));
    if task.Some? then Some(LevelOf(task.value, parse)) else None
  }

  /** What a message says about a task. */
  function Says(m: Message, id: int): Option<Record> {
    match m
    case StatusChanged(payload) => if payload.id == Some(id) then Some(payload) else None
    case Snapshot(tasks) => Find(tasks, Some(id))
  }

  // ---- One message

  lemma {:induction false} FindAfterStatus(current: seq<Record>, payload: Record, id: int, parse: DateParser)
    ensures var before, after := Find(current, Some(id)), Find(ApplyStatus(current, payload, parse), Some(id));
            && before.Some? == after.Some?
            && (before.Some? ==> after.value == TakeStatus(before.value, payload, parse))
  {
    if current != [] {
      FindAfterStatus(current[1..], payload, id, parse);
    }
  }

  lemma {:induction false} FoundHasId(records: seq<Record>, id: Option<int>)
    ensures var r := Find(records, id); r.Some? ==> r.value.id == id && r.value in records
  {
    if records != [] {
      FoundHasId(records[1..], id);
    }
  }

  lemma {:induction false} FindAfterMerge(current: seq<Record>, snapshot: seq<Record>, id: int, parse: DateParser)
    ensures var before, after := Find(current, Some(id)), Find(MergeAll(current, snapshot, parse), Some(id));
            && before.Some? == after.Some?
            && (before.Some? ==> after.value == Merge(before.value, snapshot, parse))
  {
    if current != [] {
      FoundHasId(snapshot, current[0].id);
      FindAfterMerge(current[1..], snapshot, id, parse);
    }
  }

  lemma {:induction false} FindInUnknown(current: seq<Record>, snapshot: seq<Record>, id: int)
    requires Find(current, Some(id)).None?
    ensures Find(Unknown(current, snapshot), Some(id)) == Find(snapshot, Some(id))
    decreases |snapshot|
  {
    if snapshot != [] {
      FindInUnknown(current, snapshot[1..], id);
    }
  }

  lemma {:induction false} FindInBoth(a: seq<Record>, b: seq<Record>, id: Option<int>)
    ensures Find(a + b, id) == if Find(a, id).Some? then Find(a, id) else Find(b, id)
  {
    if a == [] {
      assert a + b == b;
    } else {
      assert (a + b)[1..] == a[1..] + b;
      FindInBoth(a[1..], b, id);
    }
  }

  /** Returning the old list when nothing changed is the same as always building the new one. */
  lemma {:induction false} NothingMerged(current: seq<Record>, snapshot: seq<Record>, parse: DateParser)
    requires !AnyMerges(current, snapshot, parse)
    ensures MergeAll(current, snapshot, parse) == current
  {
    if current != [] {
      NothingMerged(current[1..], snapshot, parse);
    }
  }

  lemma SnapshotAlwaysMerges(current: seq<Record>, snapshot: seq<Record>, parse: DateParser)
    ensures ApplySnapshot(current, snapshot, parse)
            == MergeAll(current, snapshot, parse) + Unknown(current, snapshot)
  {
    if !AnyMerges(current, snapshot, parse) {
      NothingMerged(current, snapshot, parse);
    }
  }

  lemma FindAfterSnapshot(current: seq<Record>, snapshot: seq<Record>, id: int, parse: DateParser)
    ensures var before, after := Find(current, Some(id)), Find(ApplySnapshot(current, snapshot, parse), Some(id));
            if before.Some? then after == Some(Merge(before.value, snapshot, parse))
            else after == Find(snapshot, Some(id))
  {
    SnapshotAlwaysMerges(current, snapshot, parse);
    FindAfterMerge(current, snapshot, id, parse);
    FindInBoth(MergeAll(current, snapshot, parse), Unknown(current, snapshot), Some(id));
    if Find(current, Some(id)).None? {
      FindInUnknown(current, snapshot, id);
    }
  }

  /** The level shown after one message: the higher of the two for a task in the list; a task not in the list appears
      only with a snapshot. */
  function ShownNext(shown: Option<Level>, m: Message, id: int, parse: DateParser): Option<Level> {
    var said := Says(m, id);
    if said.None? then shown
    else if shown.Some? then Some(Higher(shown.value, LevelOf(said.value, parse)))
    else if m.Snapshot? then Some(LevelOf(said.value, parse))
    else None
  }

  lemma MessageRaisesLevel(current: seq<Record>, m: Message, id: int, parse: DateParser)
    requires FullMessage(m)
    ensures Shown(Apply(current, m, parse), id, parse) == ShownNext(Shown(current, id, parse), m, id, parse)
  {
    FoundHasId(current, Some(id));
    match m
    case StatusChanged(payload) => FindAfterStatus(current, payload, id, parse);
    case Snapshot(tasks) =>
      FindAfterSnapshot(current, tasks, id, parse);
      FoundHasId(tasks, Some(id));
  }
}
