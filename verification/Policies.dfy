/** Rate-limit policies and decisions: internal/limiter/limiter.go.

    Instants and durations are integers counting nanoseconds, as in the program.
  */
module Policies {

  const MILLISECOND := 1_000_000
  const SECOND := 1_000 * MILLISECOND
  const DAY := 86_400 * SECOND
  const MAX_LIMIT := 1_000_000

  datatype Policy = Policy(limit: int, window: int) {

    /** What a limiter can enforce; every arithmetic bound rests on these clamps. */
    predicate Enforceable() {
      1 <= limit <= MAX_LIMIT && MILLISECOND <= window <= DAY
    }

    /** Clamps the policy. Out-of-range values move to the nearest bound, except that a window
        below one millisecond becomes a whole second. */
    function Normalize(): (p: Policy)
      ensures p.Enforceable() && 1 <= p.limit <= 1_000_000 && 1_000_000 <= p.window <= 86_400_000_000_000
      ensures Enforceable() ==> p == this
      ensures p.limit > limit ==> p.limit == 1
      ensures p.limit < limit ==> p.limit == 1_000_000
      ensures p.window > window ==> p.window == 1_000_000_000 && window < 1_000_000
      ensures p.window < window ==> p.window == 86_400_000_000_000
    {
      var l := if limit < 1 then 1 else limit;
      var l' := if l > MAX_LIMIT then MAX_LIMIT else l;
      var w := if window < MILLISECOND then SECOND else window;
      var w' := if w > DAY then DAY else w;
      Policy(l', w')
    }
  }

  datatype Backend = Redis | Memory

  datatype Decision = Decision(
    allowed: bool,
    limit: int,
    window: int,
    used: nat,
    remaining: int,
    resetAt: int,
    retryAfter: int,
    backend: Backend)

  function NonNegative(d: int): nat {
    if d < 0 then 0 else d
  }

  /** The decision for a request over its limit. */
  function Deny(backend: Backend, p: Policy, used: nat, resetAt: int, now: int): Decision {
    Decision(false, p.limit, p.window, used, 0, resetAt, NonNegative(resetAt - now), backend)
  }
}
