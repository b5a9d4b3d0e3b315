/** The distributed limiter: the Lua script in internal/limiter/redis.go as one atomic step on a
    sorted set with an expiry, and the Go code around it.

    Scores, window widths and the server's clock are whole milliseconds. */
module RedisScript {
  import opened Policies

  /** A sorted set, member to score, and the server time at which its key expires. */
  datatype ZSet = ZSet(scores: map<string, int>, expireAt: int)

  type Server = map<string, ZSet>

  /** What the script returns. */
  datatype Reply = Reply(allowed: bool, used: nat, resetMs: int)

  /** The set a command finds under a key: nothing, once the key has expired. */
  function Find(server: Server, key: string, clock: int): map<string, int> {
    if key in server && clock < server[key].expireAt then server[key].scores else map[]
  }

  /** ZREMRANGEBYSCORE key -inf cutoff. */
  function RemoveUpTo(scores: map<string, int>, cutoff: int): map<string, int> {
    map m | m in scores && scores[m] > cutoff :: scores[m]
  }

  /** The score of the first element in rank order. */
  ghost function LowestScore(scores: map<string, int>): (score: int)
    requires scores != map[]
    ensures exists m :: m in scores && scores[m] == score
    ensures forall m :: m in scores ==> score <= scores[m]
  {
    var m :| m in scores;
    var rest := scores - {m};
    if rest == map[] then
      assert scores.Keys == {m} + rest.Keys;
      scores[m]
    else
      var low := LowestScore(rest);
      assert forall n :: n in scores ==> n == m || (n in rest && rest[n] == scores[n]);
      if low < scores[m] then low else scores[m]
  }

  /** The set after the request has been counted, or not. */
  function Counted(kept: map<string, int>, nowMs: int, limit: int, member: string): map<string, int> {
    if |kept| < limit then kept[member := nowMs] else kept
  }

  ghost function ReplyOn(kept: map<string, int>, nowMs: int, windowMs: int, limit: int, member: string): Reply {
    var after := Counted(kept, nowMs, limit, member);
    Reply(|kept| < limit, if |kept| < limit then |kept| + 1 else |kept|,
          if after == map[] then windowMs else NonNegative(LowestScore(after) + windowMs - nowMs))
  }

  /** One evaluation of the script at server time `clock`. */
  ghost function Eval(server: Server, key: string, clock: int, nowMs: int, windowMs: int, limit: int, member: string)
    : (Server, Reply)
  {
    var kept := RemoveUpTo(Find(server, key, clock), nowMs - windowMs);
    var after := Counted(kept, nowMs, limit, member);
    (if after == map[] then server - {key} else server[key := ZSet(after, clock + windowMs)],
     ReplyOn(kept, nowMs, windowMs, limit, member))
  }

  /** A member counted before: under the key when it has not expired, and scored above the cutoff. */
  predicate Live(server: Server, key: string, clock: int, cutoff: int, m: string) {
    && key in server && clock < server[key].expireAt
    && m in server[key].scores && server[key].scores[m] > cutoff
  }

  /** What a script leaves under its key: the members counted before and, if it said yes, its own, to
      expire one window from now unless there are none. Other keys are left alone. */
  ghost predicate Effects(before: Server, after: Server, r: Reply, key: string, clock: int, nowMs: int, windowMs: int,
                          limit: int, member: string)
  {
    var scores := if key in after then after[key].scores else map[];
    && before - {key} == after - {key}
    && (forall m :: m in scores <==> Live(before, key, clock, nowMs - windowMs, m) || (r.allowed && m == member))
    && (forall m :: m in scores ==>
          scores[m] == if r.allowed && m == member then nowMs else before[key].scores[m])
    && (key in after ==> scores != map[] && after[key].expireAt == clock + windowMs)
    && if r.allowed then member in scores && r.used <= limit else r.used == |scores| >= limit
  }

  lemma KeptIsLive(server: Server, key: string, clock: int, cutoff: int, kept: map<string, int>)
    requires kept == RemoveUpTo(Find(server, key, clock), cutoff)
    ensures forall m :: m in kept <==> Live(server, key, clock, cutoff, m)
    ensures forall m :: m in kept ==> kept[m] == server[key].scores[m]
  {
  }

  lemma StoredUnder(server: Server, key: string, scores: map<string, int>, expireAt: int, server': Server)
    requires server' == if scores == map[] then server - {key} else server[key := ZSet(scores, expireAt)]
    ensures server - {key} == server' - {key} && scores == if key in server' then server'[key].scores else map[]
    ensures key in server' ==> scores != map[] && server'[key].expireAt == expireAt
  {
  }

  lemma EffectsFrom(server: Server, server': Server, r: Reply, key: string, clock: int, nowMs: int, windowMs: int,
                    limit: int, member: string, kept: map<string, int>, after: map<string, int>)
    requires kept == RemoveUpTo(Find(server, key, clock), nowMs - windowMs)
    requires after == Counted(kept, nowMs, limit, member)
    requires r.allowed == (|kept| < limit) && r.used == if r.allowed then |kept| + 1 else |kept|
    requires server - {key} == server' - {key} && after == if key in server' then server'[key].scores else map[]
    requires key in server' ==> after != map[] && server'[key].expireAt == clock + windowMs
    ensures Effects(server, server', r, key, clock, nowMs, windowMs, limit, member)
  {
    KeptIsLive(server, key, clock, nowMs - windowMs, kept);
  }

  lemma EvalEffects(server: Server, key: string, clock: int, nowMs: int, windowMs: int, limit: int, member: string,
                    server': Server, r: Reply)
    requires (server', r) == Eval(server, key, clock, nowMs, windowMs, limit, member)
    ensures Effects(server, server', r, key, clock, nowMs, windowMs, limit, member)
  {
    var kept := RemoveUpTo(Find(server, key, clock), nowMs - windowMs);
    var after := Counted(kept, nowMs, limit, member);
    StoredUnder(server, key, after, clock + windowMs, server');
    EffectsFrom(server, server', r, key, clock, nowMs, windowMs, limit, member, kept, after);
  }

  /** The server executing the script command by command. */
  class RedisServer {
    var keys: Server

    constructor ()
      ensures keys == map[]
    {
      keys := map[];
    }

    method Run(key: string, clock: int, nowMs: int, windowMs: int, limit: int, member: string) returns (r: Reply)
      modifies this
      ensures (keys, r) == Eval(old(keys), key, clock, nowMs, windowMs, limit, member)
      ensures Effects(old(keys), keys, r, key, clock, nowMs, windowMs, limit, member)
    {
      // ZREMRANGEBYSCORE; an emptied key disappears.
      var scores := RemoveUpTo(Find(keys, key, clock), nowMs - windowMs);
      var used, allowed := |scores|, false;
      if used < limit {
        scores := scores[member := nowMs]; // ZADD
        used, allowed := used + 1, true;
      }
      var resetMs := windowMs;
      if scores == map[] {
        keys := keys - {key};
      } else {
        keys := keys[key := ZSet(scores, clock + windowMs)]; // PEXPIRE
        var oldest := First(scores); // ZRANGE 0 0 WITHSCORES
        resetMs := oldest + windowMs - nowMs;
        if resetMs < 0 { resetMs := 0; }
      }
      r := Reply(allowed, used, resetMs);
      EvalEffects(old(keys), key, clock, nowMs, windowMs, limit, member, keys, r);
    }

    method First(scores: map<string, int>) returns (score: int)
      requires scores != map[]
      ensures score == LowestScore(scores)
    {
      var m :| m in scores;
      score := scores[m];
      var rest := scores.Keys - {m};
      while rest != {}
        invariant rest <= scores.Keys
        invariant exists n :: n in scores && scores[n] == score
        invariant forall n :: n in scores && n !in rest ==> score <= scores[n]
        decreases |rest|
      {
        var n :| n in rest;
        rest := rest - {n};
        if scores[n] < score { score := scores[n]; }
      }
    }
  }

  /** An instant or duration in whole milliseconds, rounded down. */
  function ToMs(t: int): int {
    t / MILLISECOND
  }

  lemma RoundsDown(t: int)
    ensures ToMs(t) * MILLISECOND <= t < (ToMs(t) + 1) * MILLISECOND
  {
  }

  /** RedisLimiter.Allow, given the reply of the script: `now` and the policy in nanoseconds. */
  function FromReply(r: Reply, p: Policy, now: int): Decision {
    var resetAt := now + r.resetMs * MILLISECOND;
    if !r.allowed then Deny(Redis, p, r.used, resetAt, now)
    else
      Decision(true, p.limit, p.window, r.used, NonNegative(p.limit - r.used), resetAt, r.resetMs * MILLISECOND, Redis)
  }

  /** Allow after the policy has been normalized. */
  ghost function Decide(server: Server, key: string, clock: int, now: int, p: Policy, member: string)
    : (Server, Decision)
  {
    var windowMs := if ToMs(p.window) < 1 then 1 else ToMs(p.window);
    var r := Eval(server, key, clock, ToMs(now), windowMs, p.limit, member);
    (r.0, FromReply(r.1, p, now))
  }

  ghost function Allow(server: Server, key: string, clock: int, now: int, policy: Policy, member: string)
    : (Server, Decision)
  {
    Decide(server, key, clock, now, policy.Normalize(), member)
  }

  /** How many members have a score above the cutoff. */
  function Usage(server: Server, key: string, clock: int, now: int, p: Policy): nat {
    |RemoveUpTo(Find(server, key, clock), ToMs(now - p.window))|
  }

  function Peek(server: Server, key: string, clock: int, now: int, policy: Policy): nat {
    Usage(server, key, clock, now, policy.Normalize())
  }
}
