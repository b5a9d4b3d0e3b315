/** The circuit breaker told from what happens to requests and pings, with no word about its sections:
    internal/limiter/manager.go. Any number of goroutines ask, hear from Redis and report, in any order. */
module Outcomes {
  import opened B = Breaker

  /** A request asks whether Redis may be tried; a request that tried it has its outcome; a ping ends. */
  datatype Happening =
    | Ask(now: int)
    | Outcome(outcome: B.Outcome, at: int)
    | Pinged(ping: Ping)
  {
    /** Redis has failed a request. */
    predicate Bad() {
      Outcome? && outcome.Unavailable?
    }

    /** Redis has answered a request or a ping. */
    predicate Good() {
      (Outcome? && outcome.Answered?) || (Pinged? && ping.Pong?)
    }
  }

  function EventOf(h: Happening): Event {
    match h
    case Ask(now) => Try(now)
    case Outcome(outcome, at) => B.EventOf(outcome, at)
    case Pinged(ping) => PingEvent(ping)
  }

  function Events(run: seq<Happening>): (events: seq<Event>)
    ensures |events| == |run|
  {
    seq(|run|, i requires 0 <= i < |run| => EventOf(run[i]))
  }

  function After(run: seq<Happening>, cfg: Config): Circuit {
    Run(WORKING, Events(run), cfg)
  }

  lemma AfterStep(run: seq<Happening>, cfg: Config)
    requires run != []
    ensures var n := |run| - 1; After(run, cfg) == Apply(After(run[..n], cfg), EventOf(run[n]), cfg)
  {
    assert Events(run)[..|run| - 1] == Events(run[..|run| - 1]);
  }

  /** The failures since Redis last answered anything. A caller who goes away, a ping that fails and a
      request that asks count for nothing. */
  ghost function Down(run: seq<Happening>): set<int> {
    set i | 0 <= i < |run| && run[i].Bad() && forall j :: i < j < |run| ==> !run[j].Good()
  }

  lemma DownStep(run: seq<Happening>, n: nat, h: Happening)
    requires |run| == n + 1 && h == run[n]
    ensures |Down(run)| == if h.Good() then 0 else |Down(run[..n])| + if h.Bad() then 1 else 0
  {
    var earlier := Down(run[..n]);
    if h.Good() {
      assert Down(run) == {};
    } else {
      assert forall i :: 0 <= i < n ==> run[..n][i] == run[i];
      assert n !in earlier && Down(run) == if h.Bad() then earlier + {n} else earlier;
    }
  }

  /** When the cooldown was last armed: by the failure that brought the circuit to its threshold, or by
      the last request let through while it was there. */
  ghost function Armed(run: seq<Happening>, cfg: Config): int {
    if run == [] then 0
    else
      var n := |run| - 1;
      var earlier, down := Armed(run[..n], cfg), |Down(run[..n])|;
      match run[n]
      case Ask(now) => if down >= cfg.threshold && now - earlier > cfg.cooldown then now else earlier
      case Outcome(Unavailable(_), at) => if down + 1 == cfg.threshold then at else earlier
      case _ => earlier
  }

  /** Where the circuit is after a number of failures, armed at an instant. */
  ghost predicate Stands(c: Circuit, down: nat, armed: int, cfg: Config) {
    c.failures == down && c.openUntil == if down >= cfg.threshold then Until(armed + cfg.cooldown) else Closed
  }

  lemma StandsStep(c: Circuit, down: nat, armed: int, h: Happening, c': Circuit, down': nat, armed': int, cfg: Config)
    requires Stands(c, down, armed, cfg) && cfg.Usable() && c' == Apply(c, EventOf(h), cfg)
    requires down' == if h.Good() then 0 else down + if h.Bad() then 1 else 0
    requires h.Ask? ==> armed' == if down >= cfg.threshold && h.now - armed > cfg.cooldown then h.now else armed
    requires h.Bad() ==> armed' == if down + 1 == cfg.threshold then h.at else armed
    requires !h.Ask? && !h.Bad() ==> armed' == armed
    ensures Stands(c', down', armed', cfg)
  {
  }

  /** In every run, however the goroutines take turns: `failures` is the number of requests Redis has
      failed since it last answered a request or a ping; the circuit is open exactly when that has
      reached the threshold, and then for one cooldown from when it was last armed. */
  lemma {:induction false} CircuitInEveryRun(run: seq<Happening>, cfg: Config)
    requires cfg.Usable()
    ensures Stands(After(run, cfg), |Down(run)|, Armed(run, cfg), cfg)
  {
    if run == [] {
      assert Down(run) == {};
    } else {
      var n := |run| - 1;
      CircuitInEveryRun(run[..n], cfg);
      AfterStep(run, cfg);
      DownStep(run, n, run[n]);
      StandsStep(After(run[..n], cfg), |Down(run[..n])|, Armed(run[..n], cfg), run[n], After(run, cfg), |Down(run)|,
                 Armed(run, cfg), cfg);
    }
  }

  /** In every run a request is let through to Redis if and only if fewer than `threshold` failures are
      outstanding or more than a cooldown has passed since the circuit was last armed. */
  lemma GrantedExactlyWhen(run: seq<Happening>, now: int, cfg: Config)
    requires cfg.Usable()
    ensures Granted(After(run, cfg), Try(now), cfg)
            <==> |Down(run)| < cfg.threshold || now - Armed(run, cfg) > cfg.cooldown
  {
    CircuitInEveryRun(run, cfg);
  }
}
