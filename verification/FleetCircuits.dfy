/** The circuit breakers of a fleet, each told from what its own instance has seen of Redis:
    internal/limiter/manager.go. */
module FleetCircuits {
  import opened Policies
  import B = Breaker
  import F = Fleet
  import O = Outcomes

  /** An answer; what it says does not matter to the breaker. */
  function Answer(allowed: bool): B.Outcome {
    B.Answered(Decision(allowed, 0, 0, 0, 0, 0, 0, Redis))
  }

  /** What happens to instance i in a run. */
  function Told(run: seq<F.Event>, i: nat): seq<O.Happening> {
    if run == [] then []
    else
      var n := |run| - 1;
      var earlier, at := Told(run[..n], i), run[n].at * MILLISECOND;
      match run[n].step
      case Begin(j, _, _) => if j == i then earlier + [O.Ask(at)] else earlier
      case Succeed(j, _, allowed) => if j == i then earlier + [O.Outcome(Answer(allowed), at)] else earlier
      case Fail(j, _, err) => if j == i then earlier + [O.Outcome(B.Unavailable(err), at)] else earlier
      case Abandon(j, _) => if j == i then earlier + [O.Outcome(B.CallerGone, at)] else earlier
      case Ping(j, ping) => if j == i then earlier + [O.Pinged(ping)] else earlier
      case _ => earlier
  }

  lemma OneMore(told: seq<O.Happening>, h: O.Happening, cfg: B.Config)
    ensures O.After(told + [h], cfg) == B.Apply(O.After(told, cfg), O.EventOf(h), cfg)
  {
    O.AfterStep(told + [h], cfg);
    assert (told + [h])[..|told|] == told;
  }

  /** What a step does to the circuit of instance i. */
  lemma CircuitStep(s: F.State, step: F.Step, now: nat, w: F.World, i: nat)
    requires F.Enabled(s, step) && i < |s.instances| == |w.names|
    ensures var c, at := s.instances[i].circuit, now * MILLISECOND;
            F.Next(s, step, now, w).instances[i].circuit ==
            match step
            case Begin(j, _, _) => if j == i then B.Apply(c, B.Try(at), w.cfg) else c
            case Succeed(j, _, _) => if j == i then B.Apply(c, B.Success, w.cfg) else c
            case Fail(j, _, err) => if j == i then B.Apply(c, B.Failure(err, at), w.cfg) else c
            case Abandon(j, _) => if j == i then B.Apply(c, B.Cancelled, w.cfg) else c
            case Ping(j, ping) => if j == i then B.Apply(c, B.PingEvent(ping), w.cfg) else c
            case _ => c
  {
  }

  /** Every instance's circuit is where its own happenings have led it. */
  lemma {:induction false} CircuitInEveryRun(run: seq<F.Event>, w: F.World, i: nat)
    requires F.Run(run, w) && i < |w.names|
    ensures F.After(run, w).instances[i].circuit == O.After(Told(run, i), w.cfg)
  {
    if run != [] {
      var n := |run| - 1;
      var told, step, at := Told(run[..n], i), run[n].step, run[n].at * MILLISECOND;
      CircuitInEveryRun(run[..n], w, i);
      CircuitStep(F.After(run[..n], w), step, run[n].at, w, i);
      match step
      case Begin(_, _, _) => OneMore(told, O.Ask(at), w.cfg);
      case Succeed(_, _, allowed) => OneMore(told, O.Outcome(Answer(allowed), at), w.cfg);
      case Fail(_, _, err) => OneMore(told, O.Outcome(B.Unavailable(err), at), w.cfg);
      case Abandon(_, _) => OneMore(told, O.Outcome(B.CallerGone, at), w.cfg);
      case Ping(_, ping) => OneMore(told, O.Pinged(ping), w.cfg);
      case _ =>
    }
  }

  /** In every run a call may try Redis if and only if, of what its own instance has seen, fewer than
      `threshold` failures are outstanding or more than a cooldown has passed since its circuit was last
      armed; otherwise it goes to the instance's own limiter at once. */
  lemma TriesRedisExactlyWhen(run: seq<F.Event>, w: F.World, at: nat, i: nat, t: nat, key: string, s: F.State)
    requires w.cfg.Usable() && F.Run(run, w) && i < |w.names| && s == F.After(run, w)
    requires F.Enabled(s, F.Begin(i, t, key))
    ensures var inst := F.Next(s, F.Begin(i, t, key), at, w).instances[i];
            var told := Told(run, i);
            && t in inst.calls
            && inst.calls[t] == if |O.Down(told)| < w.cfg.threshold
                                   || at * MILLISECOND - O.Armed(told, w.cfg) > w.cfg.cooldown
                                then F.Granted(key) else F.Fallen(key)
  {
    CircuitInEveryRun(run, w, i);
    O.GrantedExactlyWhen(Told(run, i), at * MILLISECOND, w.cfg);
  }
}
