/** The per-minute rate limit: a fixed window in Redis, and a pruned sliding window in memory for when Redis fails. */
module RateLimit {
  import opened Wrappers

  type Time = real

  const WINDOW: Time := 60.0
  const KEY_TTL: Time := 120.0

  // ---- The sliding window in memory

  /** How many leading timestamps are older than `cutoff`. */
  function Stale(bucket: seq<Time>, cutoff: Time): (n: nat)
    ensures n <= |bucket|
    ensures forall i :: 0 <= i < n ==> bucket[i] < cutoff
    ensures n < |bucket| ==> bucket[n] >= cutoff
  {
    if bucket != [] && bucket[0] < cutoff then 1 + Stale(bucket[1..], cutoff) else 0
  }

  /** Exactly the first `n` timestamps, up to the first that is not, are older than `cutoff`. */
  predicate IsStale(bucket: seq<Time>, n: nat, cutoff: Time) {
    && n <= |bucket| && (forall i :: 0 <= i < n ==> bucket[i] < cutoff)
    && (n < |bucket| ==> cutoff <= bucket[n])
  }

  function Prune(bucket: seq<Time>, cutoff: Time): seq<Time> {
    bucket[Stale(bucket, cutoff)..]
  }

  lemma PopStale(bucket: seq<Time>, cutoff: Time)
    requires bucket != [] && bucket[0] < cutoff
    ensures Prune(bucket[1..], cutoff) == Prune(bucket, cutoff)
  {
    var n := Stale(bucket[1..], cutoff);
    assert bucket[1..][n..] == bucket[1 + n..];
  }

  predicate MemoryAdmits(bucket: seq<Time>, limit: int, now: Time) {
    limit <= 0 || |Prune(bucket, now - WINDOW)| < limit
  }

  function BucketAfter(bucket: seq<Time>, limit: int, now: Time): seq<Time> {
    if limit <= 0 then bucket
    else if MemoryAdmits(bucket, limit, now) then Prune(bucket, now - WINDOW) + [now]
    else Prune(bucket, now - WINDOW)
  }

  /** A check drops the leading timestamps that are more than a minute old, admits if fewer than `limit` are left, and
      adds its own only then. */
  lemma MemoryCheckMeans(bucket: seq<Time>, limit: int, now: Time) returns (n: nat)
    ensures IsStale(bucket, n, now - 60.0)
    ensures MemoryAdmits(bucket, limit, now) <==> limit <= 0 || |bucket| - n < limit
    ensures BucketAfter(bucket, limit, now) == if limit <= 0 then bucket
                                               else bucket[n..] + if |bucket| - n < limit then [now] else []
  {
    n := Stale(bucket, now - 60.0);
  }

  // ---- The fixed window in Redis

  datatype Counter = Counter(count: nat, expiresAt: Option<Time>)

  type Keys = map<(int, int), Counter>  // (workspace, minute)

  /** What goes wrong during one check: no client; the INCR lost before or after its effect; the EXPIRE that follows
      a first INCR lost before or after its effect. Each makes the check fall back to memory. */
  datatype Fault = NoFault | NoClient | IncrLost | IncrUnanswered | ExpireLost | ExpireUnanswered

  function Minute(now: Time): int {
    (now / WINDOW).Floor
  }

  function CountAt(keys: Keys, key: (int, int), now: Time): nat {
    if key in keys && !(keys[key].expiresAt.Some? && keys[key].expiresAt.value <= now) then keys[key].count else 0
  }

  function KeysAfter(keys: Keys, workspace: int, now: Time, fault: Fault): Keys {
    var key := (workspace, Minute(now));
    var count := CountAt(keys, key, now) + 1;
    if fault == NoClient || fault == IncrLost then keys
    else if count > 1 then keys[key := Counter(count, keys[key].expiresAt)]
    else if fault == IncrUnanswered || fault == ExpireLost then keys[key := Counter(count, None)]
    else keys[key := Counter(count, Some(now + KEY_TTL))]
  }

  /** `None` means that Redis failed. */
  function RedisReply(keys: Keys, workspace: int, limit: int, now: Time, fault: Fault): Option<bool> {
    var count := CountAt(keys, (workspace, Minute(now)), now) + 1;
    if fault == NoClient || fault == IncrLost || fault == IncrUnanswered then None
    else if count == 1 && (fault == ExpireLost || fault == ExpireUnanswered) then None
    else Some(count <= limit)
  }

  function BucketOf(buckets: map<int, seq<Time>>, workspace: int): seq<Time> {
    if workspace in buckets then buckets[workspace] else []
  }

  class RateLimiter {
    var buckets: map<int, seq<Time>>
    var keys: Keys

    constructor ()
      ensures buckets == map[] && keys == map[]
    {
      buckets, keys := map[], map[];
    }

    method CheckMemory(workspace: int, limit: int, now: Time) returns (ok: bool)
      modifies this`buckets
      ensures ok == MemoryAdmits(BucketOf(old(buckets), workspace), limit, now)
      ensures limit <= 0 ==> buckets == old(buckets)
      ensures limit > 0 ==>
                buckets == old(buckets)[workspace := BucketAfter(BucketOf(old(buckets), workspace), limit, now)]
    {
      if limit <= 0 {
        return true;
      }
      var bucket := BucketOf(buckets, workspace);
      var cutoff := now - WINDOW;
      ghost var pruned := Prune(bucket, cutoff);
      while bucket != [] && bucket[0] < cutoff
        invariant Prune(bucket, cutoff) == pruned && buckets == old(buckets)
        decreases |bucket|
      {
        PopStale(bucket, cutoff);
        bucket := bucket[1..];
      }
      assert bucket == pruned;
      ok := |bucket| < limit;
      if ok {
        bucket := bucket + [now];
      }
      buckets := buckets[workspace := bucket];
    }

    method CheckRedis(workspace: int, limit: int, now: Time, fault: Fault) returns (reply: Option<bool>)
      modifies this`keys
      ensures keys == KeysAfter(old(keys), workspace, now, fault)
      ensures reply == RedisReply(old(keys), workspace, limit, now, fault)
      ensures var key := (workspace, (now / 60.0).Floor);
              var alive := && key in old(keys)
                           && (old(keys)[key].expiresAt.Some? ==> now < old(keys)[key].expiresAt.value);
              var count := 1 + if alive then old(keys)[key].count else 0;
              var kept := if count > 1 then old(keys)[key].expiresAt else None;
              match fault
              case NoClient => reply == None && keys == old(keys)
              case IncrLost => reply == None && keys == old(keys)
              case IncrUnanswered => reply == None && keys == old(keys)[key := Counter(count, kept)]
              case ExpireLost =>
                && reply == (if count > 1 then Some(count <= limit) else None)
                && keys == old(keys)[key := Counter(count, kept)]
              case ExpireUnanswered =>
                && reply == (if count > 1 then Some(count <= limit) else None)
                && keys == old(keys)[key := Counter(count, if count > 1 then kept else Some(now + 120.0))]
              case NoFault =>
                && reply == Some(count <= limit)
                && keys == old(keys)[key := Counter(count, if count > 1 then kept else Some(now + 120.0))]
    {
      if fault == NoClient || fault == IncrLost {
        return None;
      }
      var key := (workspace, Minute(now));
      var count := CountAt(keys, key, now) + 1;
      keys := keys[key := Counter(count, if count > 1 then keys[key].expiresAt else None)];
      if fault == IncrUnanswered {
        return None;
      }
      if count == 1 {
        if fault == ExpireLost {
          return None;
        }
        keys := keys[key := Counter(count, Some(now + KEY_TTL))];
        if fault == ExpireUnanswered {
          return None;
        }
      }
      reply := Some(count <= limit);
    }

    /** `_check_rate_limit`: Redis first, memory when Redis failed, and no limit at all when `limit <= 0`. */
    method Check(workspace: int, limit: int, now: Time, fault: Fault) returns (ok: bool)
      modifies this
      ensures limit <= 0 ==> ok && buckets == old(buckets) && keys == old(keys)
      ensures limit > 0 ==>
                var reply := RedisReply(old(keys), workspace, limit, now, fault);
                var bucket := BucketOf(old(buckets), workspace);
                && keys == KeysAfter(old(keys), workspace, now, fault)
                && ok == (if reply.Some? then reply.value else MemoryAdmits(bucket, limit, now))
                && buckets == (if reply.Some? then old(buckets)
                               else old(buckets)[workspace := BucketAfter(bucket, limit, now)])
    {
      if limit <= 0 {
        return true;
      }
      var reply := CheckRedis(workspace, limit, now, fault);
      if reply.Some? {
        return reply.value;
      }
      ok := CheckMemory(workspace, limit, now);
    }
  }
}
