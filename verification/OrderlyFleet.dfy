/** The fleet's bound with nothing set aside: what the in-memory limiters of a fleet go through are runs
    of the in-memory limiter, and where every janitor is orderly none of them decides on a detached
    entry (internal/limiter/manager.go, internal/limiter/memory.go). */
module OrderlyFleet {
  import opened Policies
  import opened Fleet
  import E = Eviction
  import J = Janitor

  /** What a step of the fleet is to the in-memory limiter of instance i. */
  function Inner(s: State, step: Step, now: nat, w: World, i: nat): seq<E.Event>
    requires Enabled(s, step)
  {
    match step
    case GoLocal(j, t) =>
      if i == j then [E.Event(now * MILLISECOND, E.CallAllow(t, s.instances[j].calls[t].key, w.p))] else []
    case Mem(j, inner) => if i == j then [E.Event(now * MILLISECOND, inner)] else []
    case _ => []
  }

  /** The run of instance i's in-memory limiter in a run of the fleet. */
  ghost function Project(run: seq<Event>, w: World, i: nat): seq<E.Event>
    requires Run(run, w)
  {
    if run == [] then []
    else
      var n := |run| - 1;
      Project(run[..n], w, i) + Inner(After(run[..n], w), run[n].step, run[n].at, w, i)
  }

  /** What a step does to the in-memory limiter of instance i. */
  lemma InnerStep(s: State, step: Step, now: nat, w: World, i: nat, s': State)
    requires Enabled(s, step) && |s.instances| == |w.names| && i < |w.names| && s' == Next(s, step, now, w)
    ensures var inner := Inner(s, step, now, w, i);
            if inner == [] then s'.instances[i].mem == s.instances[i].mem
            else inner == [E.Event(now * MILLISECOND, inner[0].step)] && E.Enabled(s.instances[i].mem, inner[0].step)
                 && s'.instances[i].mem == E.Next(s.instances[i].mem, inner[0].step, now * MILLISECOND, w.minTTL)
  {
  }

  lemma InnerTimely(s: State, step: Step, now: nat, w: World, i: nat)
    requires Enabled(s, step) && Timely(s, step, now, w) && i < |s.instances| && w.p.Enforceable()
    requires var inner := Inner(s, step, now, w, i); inner != [] && E.Enabled(s.instances[i].mem, inner[0].step)
    ensures E.Timely(s.instances[i].mem, Inner(s, step, now, w, i)[0].step, now * MILLISECOND, w.p,
                     w.rules.lag * MILLISECOND)
  {
  }

  /** The instance's limiter is where its own run takes it. */
  lemma {:induction false} ProjectRuns(run: seq<Event>, w: World, i: nat)
    requires Run(run, w) && i < |w.names|
    ensures E.Run(Project(run, w, i), w.minTTL)
    ensures E.After(Project(run, w, i), w.minTTL) == After(run, w).instances[i].mem
    ensures Project(run, w, i) != [] ==> run != [] && J.LastAt(Project(run, w, i)) <= run[|run| - 1].at * MILLISECOND
  {
    if run != [] {
      var n := |run| - 1;
      var s, events := After(run[..n], w), Project(run[..n], w, i);
      ProjectRuns(run[..n], w, i);
      InnerStep(s, run[n].step, run[n].at, w, i, After(run, w));
      var inner := Inner(s, run[n].step, run[n].at, w, i);
      if inner == [] {
        assert events + inner == events;
      } else {
        J.RunSnoc(events, inner[0], w.minTTL);
      }
    }
  }

  lemma {:induction false} ProjectIsTimely(run: seq<Event>, w: World, i: nat)
    requires Run(run, w) && TimelyRun(run, w) && i < |w.names| && w.p.Enforceable()
    ensures E.Run(Project(run, w, i), w.minTTL)
    ensures E.TimelyRun(Project(run, w, i), w.minTTL, w.p, w.rules.lag * MILLISECOND)
  {
    ProjectRuns(run, w, i);
    if run != [] {
      var n := |run| - 1;
      var s, events := After(run[..n], w), Project(run[..n], w, i);
      ProjectIsTimely(run[..n], w, i);
      ProjectRuns(run[..n], w, i);
      InnerStep(s, run[n].step, run[n].at, w, i, After(run, w));
      var inner := Inner(s, run[n].step, run[n].at, w, i);
      if inner == [] {
        assert events + inner == events;
      } else {
        InnerTimely(s, run[n].step, run[n].at, w, i);
        J.TimelySnoc(events, inner[0], w.minTTL, w.p, w.rules.lag * MILLISECOND);
      }
    }
  }

  /** Every instance's janitor is orderly. */
  ghost predicate OrderlyRun(run: seq<Event>, w: World, d: int)
    requires Run(run, w)
  {
    forall i: nat :: i < |w.names| ==>
      E.Run(Project(run, w, i), w.minTTL) && J.OrderlyRun(Project(run, w, i), w.minTTL, d)
  }

  lemma NoneDetached(run: seq<Event>, w: World, d: int, key: string, lo: int, hi: int, i: nat)
    requires w.Usable() && Run(run, w) && TimelyRun(run, w) && OrderlyRun(run, w, d) && i < |w.names|
    requires 0 <= d && w.rules.lag * MILLISECOND < 7 * (d + 1)
    ensures E.DetachedAnswers(After(run, w).instances[i].mem, key, lo, hi) == {}
  {
    ProjectRuns(run, w, i);
    ProjectIsTimely(run, w, i);
    J.NeverDetached(Project(run, w, i), w.minTTL, w.p, w.rules.lag * MILLISECOND, d, key, lo, hi);
  }

  lemma {:induction false} DetachedSum(s: State, key: string, lo: int, hi: int, n: nat)
    requires n <= |s.instances|
    requires forall i :: 0 <= i < |s.instances| ==> E.DetachedAnswers(s.instances[i].mem, key, lo, hi) == {}
    ensures Detached(s, key, lo, hi, n) == 0
  {
    if n > 0 { DetachedSum(s, key, lo, hi, n - 1); }
  }

  /** The fleet's bound where every janitor is orderly and the lag less than seven times the least distance
      between its passes: (n + 1) * limit allowed calls of a key in any window shorter by the lag, and
      none beside them. */
  lemma ExactFleetBound(run: seq<Event>, w: World, key: string, a: int, d: int)
    requires w.Usable() && Run(run, w) && TimelyRun(run, w) && OrderlyRun(run, w, d)
    requires 0 <= d && w.rules.lag * MILLISECOND < 7 * (d + 1)
    ensures var lo, hi := a * MILLISECOND, (a + w.rules.window - w.rules.lag) * MILLISECOND;
            |Admitted(After(run, w), key, lo, hi)| <= (|w.names| + 1) * w.p.limit
  {
    var s := After(run, w);
    var lo, hi := a * MILLISECOND, (a + w.rules.window - w.rules.lag) * MILLISECOND;
    forall i | 0 <= i < |s.instances| ensures E.DetachedAnswers(s.instances[i].mem, key, lo, hi) == {} {
      NoneDetached(run, w, d, key, lo, hi, i);
    }
    DetachedSum(s, key, lo, hi, |w.names|);
    FleetBound(run, w, key, a);
  }
}
