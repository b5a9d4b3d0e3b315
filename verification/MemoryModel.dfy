/** The in-memory limiter as functions on values: internal/limiter/memory.go.

    The class in MemoryLimiter.dfy and the interleaved protocol in Eviction.dfy are both stated
    in terms of the critical sections defined here.
  */
module MemoryModel {
  import opened Policies
  import SlidingWindow

  datatype Entry = Entry(hits: seq<int>, window: int, dead: bool, lastSeen: int)

  const FRESH := Entry([], 0, false, 0)

  type Table = map<string, Entry>

  /** The section of Allow under the entry's mutex, once the entry is known to be live. */
  function Decide(e: Entry, now: int, p: Policy): (Entry, Decision)
    requires p.Enforceable()
  {
    var hits := SlidingWindow.Prune(e.hits, now - p.window);
    var used := |hits|;
    if used >= p.limit then
      (e.(hits := hits, window := p.window), Deny(Memory, p, used, hits[0] + p.window, now))
    else
      var hits' := hits + [now];
      var resetAt := hits'[0] + p.window;
      (e.(hits := hits', window := p.window),
       Decision(true, p.limit, p.window, used + 1, p.limit - (used + 1), resetAt,
                NonNegative(resetAt - now), Memory))
  }

  /** What a decision tells of the hits the entry is left with, the request's own among them if it was
      admitted. */
  ghost predicate Tells(d: Decision, hits: seq<int>, now: int, p: Policy) {
    && d.limit == p.limit && d.window == p.window && d.backend == Memory
    && d.used == |hits| > 0 && d.resetAt == hits[0] + p.window
    && d.retryAfter == (if d.resetAt > now then d.resetAt - now else 0)
    && if d.allowed then hits[|hits| - 1] == now && d.remaining == p.limit - |hits| >= 0
       else d.remaining == 0 && |hits| >= p.limit
  }

  /** How long a key may stay idle: twice its window, and at least `minTTL`. */
  function TimeToLive(e: Entry, minTTL: int): int {
    if 2 * e.window < minTTL then minTTL else 2 * e.window
  }

  predicate Idle(e: Entry, now: int, minTTL: int) {
    now - e.lastSeen > TimeToLive(e, minTTL)
  }

  /** The section of cleanup under the entry's mutex. */
  function Visit(e: Entry, now: int, minTTL: int): Entry {
    if Idle(e, now, minTTL) then e.(dead := true, hits := [])
    else e.(hits := SlidingWindow.Prune(e.hits, now - e.window))
  }

  /** The entry an Allow of `key` ends up locking: a missing or dead one is replaced. */
  function Acquire(t: Table, key: string): Entry {
    if key in t && !t[key].dead then t[key] else FRESH
  }

  function Allow(t: Table, key: string, now: int, policy: Policy): (Table, Decision) {
    var r := Decide(Acquire(t, key).(lastSeen := now), now, policy.Normalize());
    (t[key := r.0], r.1)
  }

  function Peek(t: Table, key: string, now: int, policy: Policy): (Table, nat, bool) {
    if key !in t then (t, 0, false)
    else
      var e := t[key].(hits := SlidingWindow.Prune(t[key].hits, now - policy.Normalize().window));
      (t[key := e], |e.hits|, true)
  }

  function Cleanup(t: Table, now: int, minTTL: int): Table {
    map k | k in t && !Idle(t[k], now, minTTL) :: Visit(t[k], now, minTTL)
  }

  /** One call in a sequential run. */
  datatype Op =
    | AllowOp(now: int, key: string, policy: Policy)
    | PeekOp(now: int, key: string, policy: Policy)
    | CleanupOp(now: int)

  datatype Reply = Decided(decision: Decision) | Used(used: nat) | Done

  function Step(t: Table, op: Op, minTTL: int): (Table, Reply) {
    match op
    case AllowOp(now, key, policy) => var r := Allow(t, key, now, policy); (r.0, Decided(r.1))
    case PeekOp(now, key, policy) => var r := Peek(t, key, now, policy); (r.0, Used(r.1))
    case CleanupOp(now) => (Cleanup(t, now, minTTL), Done)
  }

  /** The table after a run, starting empty. */
  function Run(ops: seq<Op>, minTTL: int): Table {
    if ops == [] then map[] else Step(Run(ops[..|ops| - 1], minTTL), ops[|ops| - 1], minTTL).0
  }

  /** What the last call of a run replied. */
  function LastReply(ops: seq<Op>, minTTL: int): Reply
    requires ops != []
  {
    Step(Run(ops[..|ops| - 1], minTTL), ops[|ops| - 1], minTTL).1
  }
}
