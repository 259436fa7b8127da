/** Bounds for the Redis window and for arbitrary switching between Redis and memory. */
module RateLimitBounds {
  import opened Wrappers
  import opened RateLimit
  import opened RateLimitRuns

  /** One check: by the process under study or by another one on the same Redis, for any workspace. */
  datatype Call = Call(now: Time, workspace: int, own: bool, fault: Fault)

  /** `redis` holds the admissions of one workspace by Redis in all processes, `memory.history` those by the memory of
      the process under study, and `own` everything that process admitted. */
  datatype World = World(keys: Keys, memory: Memory, redis: seq<Time>, own: seq<Time>)

  function Step(w: World, workspace: int, limit: int, c: Call): World {
    var reply := RedisReply(w.keys, c.workspace, limit, c.now, c.fault);
    var keys := KeysAfter(w.keys, c.workspace, c.now, c.fault);
    if c.workspace != workspace then w.(keys := keys)
    else if reply.Some? then
      World(keys, w.memory, Append(w.redis, reply.value, c.now), Append(w.own, c.own && reply.value, c.now))
    else if c.own then
      World(keys, MemoryStep(w.memory, MemoryCall(c.now, limit)), w.redis,
            Append(w.own, MemoryAdmits(w.memory.bucket, limit, c.now), c.now))
    else w.(keys := keys)
  }

  function Run(w: World, workspace: int, limit: int, cs: seq<Call>): World
    decreases |cs|
  {
    if cs == [] then w else Run(Step(w, workspace, limit, cs[0]), workspace, limit, cs[1..])
  }

  predicate Monotone(clock: Time, cs: seq<Call>)
    decreases |cs|
  {
    cs != [] ==> clock <= cs[0].now && Monotone(cs[0].now, cs[1..])
  }

  /** The step of the process under study is what `RateLimiter.Check` does. */
  method CheckIsAStep(limiter: RateLimiter, w: World, workspace: int, limit: int, now: Time, fault: Fault)
    returns (ok: bool)
    requires limit > 0 && limiter.keys == w.keys && BucketOf(limiter.buckets, workspace) == w.memory.bucket
    modifies limiter
    ensures var after := Step(w, workspace, limit, Call(now, workspace, true, fault));
            && limiter.keys == after.keys && BucketOf(limiter.buckets, workspace) == after.memory.bucket
            && after.own == Append(w.own, ok, now)
  {
    ok := limiter.Check(workspace, limit, now, fault);
  }

  // ---- Minutes

  /** How many of the times fall in the aligned minute. */
  function InMinute(times: seq<Time>, minute: int): nat {
    if times == [] then 0
    else InMinute(times[..|times| - 1], minute) + if Minute(times[|times| - 1]) == minute then 1 else 0
  }

  lemma MinuteSpans(now: Time)
    ensures Minute(now) as real * WINDOW <= now < (Minute(now) + 1) as real * WINDOW
  {
  }

  lemma MinuteGrows(a: Time, b: Time)
    requires a <= b
    ensures Minute(a) <= Minute(b)
  {
  }

  lemma {:induction false} InMinuteAppend(times: seq<Time>, now: Time, minute: int)
    ensures InMinute(times + [now], minute) == InMinute(times, minute) + if Minute(now) == minute then 1 else 0
  {
    assert (times + [now])[..|times|] == times;
  }

  /** A closed 60-second interval touches two aligned minutes. */
  lemma {:induction false} TwoMinutesCover(times: seq<Time>, from: Time)
    ensures CountWindow(times, from) <= InMinute(times, Minute(from)) + InMinute(times, Minute(from) + 1)
  {
    if times != [] {
      var t := times[|times| - 1];
      TwoMinutesCover(times[..|times| - 1], from);
      if from <= t <= from + WINDOW {
        MinuteGrows(from, t);
        MinuteGrows(t, from + WINDOW);
        assert (from + WINDOW) / WINDOW == from / WINDOW + 1.0;
      }
    }
  }

  // ---- The Redis window

  /** No counter expires before its minute is over. */
  predicate OutlivesMinute(keys: Keys) {
    forall k :: k in keys && keys[k].expiresAt.Some? ==> (k.1 + 1) as real * WINDOW <= keys[k].expiresAt.value
  }

  ghost predicate CountersKnow(w: World, workspace: int, clock: Time) {
    forall minute :: Minute(clock) <= minute ==> InMinute(w.redis, minute) <= Stored(w.keys, (workspace, minute))
  }

  function Stored(keys: Keys, key: (int, int)): nat {
    if key in keys then keys[key].count else 0
  }

  ghost predicate MinutesWithin(times: seq<Time>, limit: int) {
    forall minute :: InMinute(times, minute) <= limit
  }

  /** The TTL never drops the counter of the current minute. */
  lemma CurrentCounterIsAlive(keys: Keys, workspace: int, now: Time)
    requires OutlivesMinute(keys)
    ensures CountAt(keys, (workspace, Minute(now)), now) == Stored(keys, (workspace, Minute(now)))
  {
    MinuteSpans(now);
  }

  lemma KeysOutlive(keys: Keys, workspace: int, now: Time, fault: Fault)
    requires OutlivesMinute(keys)
    ensures OutlivesMinute(KeysAfter(keys, workspace, now, fault))
  {
    MinuteSpans(now);
    CurrentCounterIsAlive(keys, workspace, now);
  }

  /** A check adds one to the current counter, or leaves every counter alone when it never reached Redis. */
  lemma KeysCount(keys: Keys, workspace: int, now: Time, fault: Fault, key: (int, int))
    requires OutlivesMinute(keys)
    ensures Stored(KeysAfter(keys, workspace, now, fault), key) == Stored(keys, key) +
            if key == (workspace, Minute(now)) && fault != NoClient && fault != IncrLost then 1 else 0
  {
    CurrentCounterIsAlive(keys, workspace, now);
  }

  ghost predicate RedisInv(w: World, workspace: int, limit: int, clock: Time) {
    OutlivesMinute(w.keys) && CountersKnow(w, workspace, clock) && MinutesWithin(w.redis, limit)
  }

  lemma CountersStep(w: World, workspace: int, limit: int, clock: Time, c: Call)
    requires RedisInv(w, workspace, limit, clock) && clock <= c.now
    ensures CountersKnow(Step(w, workspace, limit, c), workspace, c.now)
  {
    var after := Step(w, workspace, limit, c);
    MinuteGrows(clock, c.now);
    forall minute | Minute(c.now) <= minute
      ensures InMinute(after.redis, minute) <= Stored(after.keys, (workspace, minute))
    {
      assert InMinute(w.redis, minute) <= Stored(w.keys, (workspace, minute));
      KeysCount(w.keys, c.workspace, c.now, c.fault, (workspace, minute));
      InMinuteAppend(w.redis, c.now, minute);
    }
  }

  lemma MinutesStep(w: World, workspace: int, limit: int, clock: Time, c: Call)
    requires RedisInv(w, workspace, limit, clock) && clock <= c.now
    ensures MinutesWithin(Step(w, workspace, limit, c).redis, limit)
  {
    var after := Step(w, workspace, limit, c);
    MinuteGrows(clock, c.now);
    CurrentCounterIsAlive(w.keys, workspace, c.now);
    forall minute
      ensures InMinute(after.redis, minute) <= limit
    {
      assert InMinute(w.redis, minute) <= limit;
      InMinuteAppend(w.redis, c.now, minute);
      assert InMinute(w.redis, Minute(c.now)) <= Stored(w.keys, (workspace, Minute(c.now)));
    }
  }

  // ---- Both windows

  ghost predicate Inv(w: World, workspace: int, limit: int, clock: Time) {
    && RedisInv(w, workspace, limit, clock)
    && MemoryInv(w.memory, clock) && WindowsWithin(w.memory.history, limit)
    && OwnIsCovered(w)
  }

  ghost predicate OwnIsCovered(w: World) {
    forall from :: CountWindow(w.own, from) <= CountWindow(w.redis, from) + CountWindow(w.memory.history, from)
  }

  lemma OwnStep(w: World, workspace: int, limit: int, c: Call)
    requires limit > 0 && OwnIsCovered(w)
    ensures OwnIsCovered(Step(w, workspace, limit, c))
  {
    var after := Step(w, workspace, limit, c);
    forall from
      ensures CountWindow(after.own, from) <= CountWindow(after.redis, from) + CountWindow(after.memory.history, from)
    {
      assert CountWindow(w.own, from) <= CountWindow(w.redis, from) + CountWindow(w.memory.history, from);
      CountAppend(w.own, c.now, from, from + WINDOW);
      CountAppend(w.redis, c.now, from, from + WINDOW);
      CountAppend(w.memory.history, c.now, from, from + WINDOW);
    }
  }

  lemma StepKeeps(w: World, workspace: int, limit: int, clock: Time, c: Call)
    requires limit > 0 && Inv(w, workspace, limit, clock) && clock <= c.now
    ensures Inv(Step(w, workspace, limit, c), workspace, limit, c.now)
  {
    KeysOutlive(w.keys, c.workspace, c.now, c.fault);
    CountersStep(w, workspace, limit, clock, c);
    MinutesStep(w, workspace, limit, clock, c);
    MemoryIdles(w.memory, clock, c.now);
    MemoryStepKeeps(w.memory, clock, c.now, limit);
    StepKeepsWindows(w.memory, clock, c.now, limit);
    OwnStep(w, workspace, limit, c);
  }

  lemma {:induction false} RunKeeps(w: World, workspace: int, limit: int, clock: Time, cs: seq<Call>)
    returns (end: Time)
    requires limit > 0 && Inv(w, workspace, limit, clock) && Monotone(clock, cs)
    ensures Inv(Run(w, workspace, limit, cs), workspace, limit, end)
    decreases |cs|
  {
    if cs == [] {
      end := clock;
    } else {
      StepKeeps(w, workspace, limit, clock, cs[0]);
      end := RunKeeps(Step(w, workspace, limit, cs[0]), workspace, limit, cs[0].now, cs[1..]);
    }
  }

  const START := World(map[], EMPTY, [], [])

  /** Over every run with a non-decreasing clock and any faults: Redis admits at most `limit` calls of the workspace
      per aligned minute in all processes together, hence at most twice that in any closed 60 seconds; and one
      process, switching between Redis and memory in any way, admits at most three times the limit. */
  lemma RateBounds(workspace: int, limit: int, clock: Time, cs: seq<Call>)
    requires limit > 0 && Monotone(clock, cs)
    ensures var after := Run(START, workspace, limit, cs);
            && (forall minute :: InMinute(after.redis, minute) <= limit)
            && (forall from :: CountWindow(after.redis, from) <= 2 * limit)
            && (forall from :: CountWindow(after.own, from) <= 3 * limit)
  {
    var after := Run(START, workspace, limit, cs);
    var _ := RunKeeps(START, workspace, limit, clock, cs);
    forall from
      ensures CountWindow(after.redis, from) <= 2 * limit && CountWindow(after.own, from) <= 3 * limit
    {
      TwoMinutesCover(after.redis, from);
      assert InMinute(after.redis, Minute(from)) <= limit && InMinute(after.redis, Minute(from) + 1) <= limit;
      assert CountWindow(after.own, from) <= CountWindow(after.redis, from) + CountWindow(after.memory.history, from);
      assert CountWindow(after.memory.history, from) <= limit;
    }
  }

  // ---- The factor three is reached

  function Copies(c: Call, n: nat): (cs: seq<Call>)
    ensures |cs| == n && forall i :: 0 <= i < n ==> cs[i] == c
  {
    if n == 0 then [] else [c] + Copies(c, n - 1)
  }

  lemma {:induction false} RunSplits(w: World, workspace: int, limit: int, a: seq<Call>, b: seq<Call>)
    ensures Run(w, workspace, limit, a + b) == Run(Run(w, workspace, limit, a), workspace, limit, b)
    decreases |a|
  {
    if a == [] {
      assert a + b == b;
    } else {
      assert (a + b)[1..] == a[1..] + b;
      RunSplits(Step(w, workspace, limit, a[0]), workspace, limit, a[1..], b);
    }
  }

  ghost predicate CountMore(before: Keys, after: Keys, key: (int, int), n: nat) {
    forall k :: Stored(after, k) == Stored(before, k) + if k == key then n else 0
  }

  ghost predicate Adds(before: seq<Time>, after: seq<Time>, from: Time, n: nat) {
    CountWindow(after, from) == CountWindow(before, from) + n
  }

  lemma AddsAgain(a: seq<Time>, b: seq<Time>, c: seq<Time>, from: Time, n: nat)
    requires n > 0 && Adds(a, b, from, 1) && Adds(b, c, from, n - 1)
    ensures Adds(a, c, from, n)
  {
  }

  /** Redis admitted `n` calls under the key, all within the minute from `from`. */
  ghost predicate RedisTook(w: World, after: World, key: (int, int), from: Time, n: nat) {
    && OutlivesMinute(after.keys) && after.memory == w.memory
    && Adds(w.own, after.own, from, n) && CountMore(w.keys, after.keys, key, n)
  }

  lemma RedisTookAgain(a: World, b: World, c: World, key: (int, int), from: Time, n: nat)
    requires n > 0 && RedisTook(a, b, key, from, 1) && RedisTook(b, c, key, from, n - 1)
    ensures RedisTook(a, c, key, from, n)
  {
    AddsAgain(a.own, b.own, c.own, from, n);
    forall k
      ensures Stored(c.keys, k) == Stored(a.keys, k) + if k == key then n else 0
    {
      assert Stored(b.keys, k) == Stored(a.keys, k) + if k == key then 1 else 0;
    }
  }

  /** The counter of the current minute has room for `n` more calls. */
  predicate RedisHasRoom(keys: Keys, key: (int, int), limit: int, n: nat) {
    OutlivesMinute(keys) && Stored(keys, key) + n <= limit
  }

  lemma AddsOne(times: seq<Time>, now: Time, from: Time)
    requires from <= now <= from + WINDOW
    ensures Adds(times, times + [now], from, 1)
  {
    CountAppend(times, now, from, from + WINDOW);
  }

  lemma CountsOneMore(keys: Keys, workspace: int, now: Time)
    requires OutlivesMinute(keys)
    ensures CountMore(keys, KeysAfter(keys, workspace, now, NoFault), (workspace, Minute(now)), 1)
  {
    var after := KeysAfter(keys, workspace, now, NoFault);
    forall k
      ensures Stored(after, k) == Stored(keys, k) + if k == (workspace, Minute(now)) then 1 else 0
    {
      KeysCount(keys, workspace, now, NoFault, k);
    }
  }

  lemma RedisStep(w: World, workspace: int, limit: int, now: Time)
    requires RedisHasRoom(w.keys, (workspace, Minute(now)), limit, 1)
    ensures Step(w, workspace, limit, Call(now, workspace, true, NoFault))
         == World(KeysAfter(w.keys, workspace, now, NoFault), w.memory, w.redis + [now], w.own + [now])
  {
    CurrentCounterIsAlive(w.keys, workspace, now);
  }

  /** One call that Redis admits. */
  lemma RedisAdmitsOne(w: World, workspace: int, limit: int, now: Time, n: nat, from: Time) returns (next: World)
    requires n > 0 && RedisHasRoom(w.keys, (workspace, Minute(now)), limit, n) && from <= now <= from + WINDOW
    ensures next == Step(w, workspace, limit, Call(now, workspace, true, NoFault))
    ensures RedisHasRoom(next.keys, (workspace, Minute(now)), limit, n - 1)
    ensures RedisTook(w, next, (workspace, Minute(now)), from, 1)
  {
    var keys := KeysAfter(w.keys, workspace, now, NoFault);
    next := World(keys, w.memory, w.redis + [now], w.own + [now]);
    RedisStep(w, workspace, limit, now);
    KeysOutlive(w.keys, workspace, now, NoFault);
    CountsOneMore(w.keys, workspace, now);
    AddsOne(w.own, now, from);
    assert Stored(keys, (workspace, Minute(now))) == Stored(w.keys, (workspace, Minute(now))) + 1;
  }

  /** The same call `n` times. */
  function Repeat(w: World, workspace: int, limit: int, c: Call, n: nat): World
    decreases n
  {
    if n == 0 then w else Repeat(Step(w, workspace, limit, c), workspace, limit, c, n - 1)
  }

  lemma {:induction false} RunRepeats(w: World, workspace: int, limit: int, c: Call, n: nat)
    ensures Run(w, workspace, limit, Copies(c, n)) == Repeat(w, workspace, limit, c, n)
    decreases n
  {
    if n > 0 {
      assert Copies(c, n)[1..] == Copies(c, n - 1);
      RunRepeats(Step(w, workspace, limit, c), workspace, limit, c, n - 1);
    }
  }

  /** Calls that Redis admits, as many as the counter of the minute has room for. */
  lemma {:induction false} RedisAdmits(w: World, workspace: int, limit: int, now: Time, n: nat, from: Time)
    requires RedisHasRoom(w.keys, (workspace, Minute(now)), limit, n) && from <= now <= from + WINDOW
    ensures var after := Repeat(w, workspace, limit, Call(now, workspace, true, NoFault), n);
            RedisTook(w, after, (workspace, Minute(now)), from, n)
    decreases n
  {
    var c, key := Call(now, workspace, true, NoFault), (workspace, Minute(now));
    if n == 0 {
      assert Repeat(w, workspace, limit, c, n) == w;
    } else {
      var next := RedisAdmitsOne(w, workspace, limit, now, n, from);
      RedisAdmits(next, workspace, limit, now, n - 1, from);
      RedisTookAgain(w, next, Repeat(next, workspace, limit, c, n - 1), key, from, n);
      assert Repeat(w, workspace, limit, c, n) == Repeat(next, workspace, limit, c, n - 1);
    }
  }

  /** The memory has room for `n` more calls at this instant. */
  predicate HasRoom(m: Memory, limit: int, now: Time, n: nat) {
    MemoryInv(m, now) && CountIn(m.history, now - WINDOW, now) + n <= limit
  }

  lemma MemoryTakesOne(m: Memory, limit: int, now: Time, n: nat)
    requires n > 0 && HasRoom(m, limit, now, n)
    ensures MemoryAdmits(m.bucket, limit, now) && HasRoom(MemoryStep(m, MemoryCall(now, limit)), limit, now, n - 1)
  {
    PruningForgetsNothing(m, now, now, limit);
    MemoryStepKeeps(m, now, now, limit);
    CountAppend(m.history, now, now - WINDOW, now);
  }

  /** One call that memory admits while Redis is away. */
  lemma MemoryAdmitsOne(w: World, workspace: int, limit: int, now: Time, n: nat, from: Time) returns (next: World)
    requires n > 0 && HasRoom(w.memory, limit, now, n) && from <= now <= from + WINDOW
    ensures next == Step(w, workspace, limit, Call(now, workspace, true, NoClient))
    ensures HasRoom(next.memory, limit, now, n - 1) && Adds(w.own, next.own, from, 1)
  {
    MemoryTakesOne(w.memory, limit, now, n);
    AddsOne(w.own, now, from);
    next := World(w.keys, MemoryStep(w.memory, MemoryCall(now, limit)), w.redis, w.own + [now]);
  }

  /** Calls that memory admits while Redis is away, as many as its window has room for. */
  lemma {:induction false} MemoryAdmitsToo(w: World, workspace: int, limit: int, now: Time, n: nat, from: Time)
    requires HasRoom(w.memory, limit, now, n) && from <= now <= from + WINDOW
    ensures var after := Repeat(w, workspace, limit, Call(now, workspace, true, NoClient), n);
            Adds(w.own, after.own, from, n)
    decreases n
  {
    if n > 0 {
      var next := MemoryAdmitsOne(w, workspace, limit, now, n, from);
      MemoryAdmitsToo(next, workspace, limit, now, n - 1, from);
      var after := Repeat(next, workspace, limit, Call(now, workspace, true, NoClient), n - 1);
      AddsAgain(w.own, next.own, after.own, from, n);
    }
  }

  lemma {:induction false} CopiesAreMonotone(clock: Time, c: Call, n: nat, rest: seq<Call>)
    requires clock <= c.now && Monotone(c.now, rest)
    ensures Monotone(clock, Copies(c, n) + rest)
    decreases n
  {
    if n == 0 {
      assert Copies(c, n) + rest == rest;
      assert rest != [] ==> clock <= rest[0].now;
    } else {
      CopiesAreMonotone(c.now, c, n - 1, rest);
      assert (Copies(c, n) + rest)[1..] == Copies(c, n - 1) + rest;
    }
  }

  /** For every positive limit: so many admissions by Redis on each side of a minute boundary, and as many by memory. */
  lemma FactorThreeIsReached(workspace: int, limit: int) returns (cs: seq<Call>)
    requires limit > 0
    ensures Monotone(59.0, cs) && CountWindow(Run(START, workspace, limit, cs).own, 59.0) == 3 * limit
  {
    var x, y := Call(59.0, workspace, true, NoFault), Call(60.0, workspace, true, NoFault);
    var z := Call(61.0, workspace, true, NoClient);
    var a, b, c := Copies(x, limit), Copies(y, limit), Copies(z, limit);
    cs := a + (b + c);
    CopiesAreMonotone(60.0, z, limit, []);
    assert c + [] == c;
    CopiesAreMonotone(59.0, y, limit, c);
    CopiesAreMonotone(59.0, x, limit, b + c);
    RunSplits(START, workspace, limit, a, b + c);
    RunRepeats(START, workspace, limit, x, limit);
    var w := Run(START, workspace, limit, a);
    RunSplits(w, workspace, limit, b, c);
    RunRepeats(w, workspace, limit, y, limit);
    RunRepeats(Run(w, workspace, limit, b), workspace, limit, z, limit);
    ThreeBatches(workspace, limit, x, y, z);
  }

  lemma ThreeBatches(workspace: int, limit: int, x: Call, y: Call, z: Call)
    requires limit > 0 && x == Call(59.0, workspace, true, NoFault)
    requires y == Call(60.0, workspace, true, NoFault) && z == Call(61.0, workspace, true, NoClient)
    ensures var w := Repeat(Repeat(START, workspace, limit, x, limit), workspace, limit, y, limit);
            CountWindow(Repeat(w, workspace, limit, z, limit).own, 59.0) == 3 * limit
  {
    assert Minute(59.0) == 0 && Minute(60.0) == 1;
    RedisAdmits(START, workspace, limit, 59.0, limit, 59.0);
    var w := Repeat(START, workspace, limit, x, limit);
    assert Stored(w.keys, (workspace, 1)) == Stored(START.keys, (workspace, 1)) + 0;
    RedisAdmits(w, workspace, limit, 60.0, limit, 59.0);
    MemoryAdmitsToo(Repeat(w, workspace, limit, y, limit), workspace, limit, 61.0, limit, 59.0);
  }
}
