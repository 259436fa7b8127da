/** Numeric bounds of the rate limit over every run of checks of one workspace.

    Here the memory path alone: its bucket forgets what is out of the window, and the history kept beside it in the
    model says that nothing is lost by that. */
module RateLimitRuns {
  import opened Wrappers
  import opened RateLimit

  /** How many of the times lie in the closed interval. */
  function CountIn(times: seq<Time>, from: Time, to: Time): nat {
    if times == [] then 0
    else CountIn(times[..|times| - 1], from, to) + if from <= times[|times| - 1] <= to then 1 else 0
  }

  predicate Ordered(times: seq<Time>, clock: Time) {
    && (forall i, j :: 0 <= i < j < |times| ==> times[i] <= times[j])
    && (forall i :: 0 <= i < |times| ==> times[i] <= clock)
  }

  lemma {:induction false} CountAppend(times: seq<Time>, t: Time, from: Time, to: Time)
    ensures CountIn(times + [t], from, to) == CountIn(times, from, to) + if from <= t <= to then 1 else 0
  {
    assert (times + [t])[..|times|] == times;
  }

  lemma {:induction false} CountNarrower(times: seq<Time>, from: Time, to: Time, from': Time, to': Time)
    requires from <= from' && to' <= to
    ensures CountIn(times, from', to') <= CountIn(times, from, to)
  {
    if times != [] {
      CountNarrower(times[..|times| - 1], from, to, from', to');
    }
  }

  lemma {:induction false} CountConcat(a: seq<Time>, b: seq<Time>, from: Time, to: Time)
    ensures CountIn(a + b, from, to) == CountIn(a, from, to) + CountIn(b, from, to)
  {
    if b == [] {
      assert a + b == a;
    } else {
      CountConcat(a, b[..|b| - 1], from, to);
      assert (a + b)[..|a + b| - 1] == a + b[..|b| - 1];
    }
  }

  predicate AllBefore(times: seq<Time>, cutoff: Time) {
    forall i :: 0 <= i < |times| ==> times[i] < cutoff
  }

  predicate Within(times: seq<Time>, from: Time, to: Time) {
    forall i :: 0 <= i < |times| ==> from <= times[i] <= to
  }

  lemma {:induction false} CountNone(times: seq<Time>, from: Time, to: Time)
    requires AllBefore(times, from)
    ensures CountIn(times, from, to) == 0
  {
    if times != [] {
      CountNone(times[..|times| - 1], from, to);
    }
  }

  lemma {:induction false} CountAll(times: seq<Time>, from: Time, to: Time)
    requires Within(times, from, to)
    ensures CountIn(times, from, to) == |times|
  {
    if times != [] {
      CountAll(times[..|times| - 1], from, to);
    }
  }

  // ---- The memory path alone

  /** `history` are all admissions ever recorded, of which `pruned` are no longer in the bucket. */
  datatype Memory = Memory(bucket: seq<Time>, history: seq<Time>, pruned: seq<Time>)

  datatype MemoryCall = MemoryCall(now: Time, limit: int)

  function Append(times: seq<Time>, admitted: bool, now: Time): seq<Time> {
    if admitted then times + [now] else times
  }

  function Dropped(bucket: seq<Time>, cutoff: Time): seq<Time> {
    bucket[..Stale(bucket, cutoff)]
  }

  function MemoryStep(m: Memory, c: MemoryCall): Memory {
    Memory(BucketAfter(m.bucket, c.limit, c.now),
           Append(m.history, c.limit > 0 && MemoryAdmits(m.bucket, c.limit, c.now), c.now),
           if c.limit > 0 then m.pruned + Dropped(m.bucket, c.now - WINDOW) else m.pruned)
  }

  function MemoryRun(m: Memory, cs: seq<MemoryCall>): Memory
    decreases |cs|
  {
    if cs == [] then m else MemoryRun(MemoryStep(m, cs[0]), cs[1..])
  }

  predicate Monotone(clock: Time, cs: seq<MemoryCall>)
    decreases |cs|
  {
    cs != [] ==> clock <= cs[0].now && Monotone(cs[0].now, cs[1..])
  }

  /** The history is what was pruned and then the bucket, and everything pruned is out of the window. */
  predicate MemoryInv(m: Memory, clock: Time) {
    m.history == m.pruned + m.bucket && Ordered(m.history, clock) && AllBefore(m.pruned, clock - WINDOW)
  }

  /** Pruning splits an ordered bucket into what is before the window and what is in it. */
  lemma PruningSplits(bucket: seq<Time>, clock: Time, now: Time)
    requires Ordered(bucket, clock) && clock <= now
    ensures bucket == Dropped(bucket, now - WINDOW) + Prune(bucket, now - WINDOW)
    ensures AllBefore(Dropped(bucket, now - WINDOW), now - WINDOW)
    ensures Within(Prune(bucket, now - WINDOW), now - WINDOW, now)
  {
  }

  lemma OrderedBack(a: seq<Time>, b: seq<Time>, clock: Time)
    requires Ordered(a + b, clock)
    ensures Ordered(b, clock)
  {
    forall i | 0 <= i < |b|
      ensures b[i] == (a + b)[|a| + i]
    {
    }
  }

  lemma OrderedAppend(times: seq<Time>, clock: Time, now: Time)
    requires Ordered(times, clock) && clock <= now
    ensures Ordered(times, now) && Ordered(times + [now], now)
  {
  }

  lemma BeforeBoth(a: seq<Time>, b: seq<Time>, cutoff: Time, later: Time)
    requires AllBefore(a, cutoff) && AllBefore(b, later) && cutoff <= later
    ensures AllBefore(a + b, later)
  {
  }

  /** A call is admitted exactly when fewer than `limit` calls were admitted in the 60 seconds before it, counted in
      the entire past. */
  lemma PruningForgetsNothing(m: Memory, clock: Time, now: Time, limit: int)
    requires MemoryInv(m, clock) && clock <= now && limit > 0
    ensures MemoryAdmits(m.bucket, limit, now) <==> CountIn(m.history, now - WINDOW, now) < limit
  {
    var cutoff := now - WINDOW;
    var past, recent := m.pruned + Dropped(m.bucket, cutoff), Prune(m.bucket, cutoff);
    OrderedBack(m.pruned, m.bucket, clock);
    PruningSplits(m.bucket, clock, now);
    BeforeBoth(m.pruned, Dropped(m.bucket, cutoff), clock - WINDOW, cutoff);
    assert m.history == past + recent;
    CountConcat(past, recent, cutoff, now);
    CountNone(past, cutoff, now);
    CountAll(recent, cutoff, now);
  }

  /** What was pruned, and then the bucket, are again the history. */
  lemma StepKeepsHistory(m: Memory, clock: Time, now: Time, limit: int)
    requires MemoryInv(m, clock) && clock <= now && limit > 0
    ensures var after := MemoryStep(m, MemoryCall(now, limit)); after.history == after.pruned + after.bucket
  {
    var dropped, kept := Dropped(m.bucket, now - WINDOW), Prune(m.bucket, now - WINDOW);
    assert m.bucket == dropped + kept;
    assert m.pruned + (dropped + kept) == m.pruned + dropped + kept;
    assert m.pruned + dropped + (kept + [now]) == m.pruned + dropped + kept + [now];
  }

  /** Time passing changes nothing. */
  lemma MemoryIdles(m: Memory, clock: Time, now: Time)
    requires MemoryInv(m, clock) && clock <= now
    ensures MemoryInv(m, now)
  {
    OrderedAppend(m.history, clock, now);
  }

  lemma MemoryStepKeeps(m: Memory, clock: Time, now: Time, limit: int)
    requires MemoryInv(m, clock) && clock <= now && limit > 0
    ensures MemoryInv(MemoryStep(m, MemoryCall(now, limit)), now)
  {
    StepKeepsHistory(m, clock, now, limit);
    OrderedAppend(m.history, clock, now);
    OrderedBack(m.pruned, m.bucket, clock);
    PruningSplits(m.bucket, clock, now);
    BeforeBoth(m.pruned, Dropped(m.bucket, now - WINDOW), clock - WINDOW, now - WINDOW);
  }

  lemma MemoryCallKeeps(m: Memory, clock: Time, c: MemoryCall)
    requires MemoryInv(m, clock) && clock <= c.now
    ensures MemoryInv(MemoryStep(m, c), c.now)
  {
    if c.limit > 0 {
      MemoryStepKeeps(m, clock, c.now, c.limit);
    } else {
      MemoryIdles(m, clock, c.now);
      assert MemoryStep(m, c) == m;
    }
  }

  const EMPTY := Memory([], [], [])

  function Clock(clock: Time, cs: seq<MemoryCall>): Time {
    if cs == [] then clock else cs[|cs| - 1].now
  }

  lemma {:induction false} MemoryRunKeeps(m: Memory, clock: Time, cs: seq<MemoryCall>)
    requires MemoryInv(m, clock) && Monotone(clock, cs)
    ensures MemoryInv(MemoryRun(m, cs), Clock(clock, cs))
    decreases |cs|
  {
    if cs != [] {
      MemoryCallKeeps(m, clock, cs[0]);
      MemoryRunKeeps(MemoryStep(m, cs[0]), cs[0].now, cs[1..]);
    }
  }

  /** After any run from an empty bucket, with limits that may change from call to call, pruning has lost nothing that
      the next decision depends on. */
  lemma EntirePastDecides(clock: Time, cs: seq<MemoryCall>, now: Time, limit: int)
    requires Monotone(clock, cs) && Clock(clock, cs) <= now && limit > 0
    ensures var after := MemoryRun(EMPTY, cs);
            MemoryAdmits(after.bucket, limit, now) <==> CountIn(after.history, now - WINDOW, now) < limit
  {
    MemoryRunKeeps(EMPTY, clock, cs);
    PruningForgetsNothing(MemoryRun(EMPTY, cs), Clock(clock, cs), now, limit);
  }

  predicate AllLimited(cs: seq<MemoryCall>, limit: int) {
    forall i :: 0 <= i < |cs| ==> cs[i].limit == limit
  }

  ghost predicate WindowsWithin(times: seq<Time>, bound: int) {
    forall from: Time :: CountWindow(times, from) <= bound
  }

  /** The admissions in the closed window that begins at `from`. */
  function CountWindow(times: seq<Time>, from: Time): nat {
    CountIn(times, from, from + WINDOW)
  }

  /** One more admission keeps every window within the limit if the window that ends with it had room. */
  lemma AdmissionKeepsWindows(times: seq<Time>, clock: Time, now: Time, limit: int)
    requires Ordered(times, clock) && clock <= now && WindowsWithin(times, limit)
    requires CountIn(times, now - WINDOW, now) < limit
    ensures WindowsWithin(times + [now], limit)
  {
    forall from: Time
      ensures CountWindow(times + [now], from) <= limit
    {
      assert CountWindow(times, from) <= limit;
      CountAppend(times, now, from, from + WINDOW);
      if from <= now <= from + WINDOW {
        NothingLater(times, now, from, from + WINDOW);
        CountNarrower(times, now - WINDOW, now, from, now);
      }
    }
  }

  lemma {:induction false} NothingLater(times: seq<Time>, now: Time, from: Time, to: Time)
    requires forall i :: 0 <= i < |times| ==> times[i] <= now
    requires now <= to
    ensures CountIn(times, from, to) == CountIn(times, from, now)
  {
    if times != [] {
      NothingLater(times[..|times| - 1], now, from, to);
    }
  }

  lemma StepKeepsWindows(m: Memory, clock: Time, now: Time, limit: int)
    requires limit > 0 && clock <= now && MemoryInv(m, clock) && WindowsWithin(m.history, limit)
    ensures WindowsWithin(MemoryStep(m, MemoryCall(now, limit)).history, limit)
  {
    PruningForgetsNothing(m, clock, now, limit);
    if MemoryAdmits(m.bucket, limit, now) {
      AdmissionKeepsWindows(m.history, clock, now, limit);
    }
  }

  /** For a fixed positive limit no closed 60-second interval ever contains more than `limit` admissions. */
  lemma {:induction false} SlidingWindowBound(m: Memory, clock: Time, cs: seq<MemoryCall>, limit: int)
    requires limit > 0 && AllLimited(cs, limit) && Monotone(clock, cs)
    requires MemoryInv(m, clock) && WindowsWithin(m.history, limit)
    ensures WindowsWithin(MemoryRun(m, cs).history, limit)
    decreases |cs|
  {
    if cs != [] {
      MemoryStepKeeps(m, clock, cs[0].now, limit);
      StepKeepsWindows(m, clock, cs[0].now, limit);
      SlidingWindowBound(MemoryStep(m, cs[0]), cs[0].now, cs[1..], limit);
    }
  }
}
