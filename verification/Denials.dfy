/** Nobody is turned away for nothing: what the in-memory limiter under concurrency must have admitted
    before it denies a call (internal/limiter/memory.go). */
module Denials {
  import opened Policies
  import opened SlidingWindow
  import M = MemoryModel
  import E = Eviction

  /** A call of Allow holds the lock of a live entry that has no room. */
  ghost predicate Denies(s: E.State, t: E.ThreadId) {
    && t in s.threads && s.threads[t].Lock? && s.threads[t].e < |s.heap| && !s.heap[s.threads[t].e].entry.dead
    && var th := s.threads[t];
       !M.Decide(s.heap[th.e].entry, th.stamp, th.policy.Normalize()).1.allowed
  }

  lemma NotMuchEarlier(log: E.Log, now: int, p: Policy, lag: int, m: nat, i: nat)
    requires E.LogOk(log, now, p, lag) && m <= i < |log.stamps|
    ensures log.stamps[i] >= log.stamps[m] - lag
  {
    assert SpacedAt(log.stamps, log.ats, p.limit, p.window, lag, m);
    assert SpacedAt(log.stamps, log.ats, p.limit, p.window, lag, i);
  }

  /** From the first stamp beyond a cutoff on, none is older than the cutoff by more than the lag. */
  lemma LaterStamps(log: E.Log, now: int, p: Policy, lag: int, m: nat, cutoff: int)
    requires E.LogOk(log, now, p, lag) && m < |log.stamps| && log.stamps[m] > cutoff
    ensures CountAfter(log.stamps, cutoff - lag) >= |log.stamps| - m
  {
    var stamps, late := log.stamps, log.stamps[m..];
    forall i | 0 <= i < |late| ensures late[i] > cutoff - lag {
      NotMuchEarlier(log, now, p, lag, m, m + i);
    }
    assert stamps == stamps[..m] + late;
    CountAfterConcat(stamps[..m], late, cutoff - lag);
    CountAfterAll(late, cutoff - lag);
  }

  lemma FullMeansSpent(v: M.Entry, log: E.Log, stamp: int, now: int, p: Policy, lag: int)
    requires p.Enforceable() && E.LogOk(log, now, p, lag) && E.LiveOk(v, log.stamps, now, p, lag) && lag >= 0
    requires stamp <= now && !M.Decide(v, stamp, p).1.allowed
    ensures CountAfter(log.stamps, stamp - p.window - lag) >= p.limit
  {
    var r := Prune(v.hits, stamp - p.window);
    PruneShape(v.hits, stamp - p.window);
    var m := |log.stamps| - |r|;
    assert r[0] == v.hits[|v.hits| - |r|] == log.stamps[m];
    LaterStamps(log, now, p, lag, m, stamp - p.window);
  }

  lemma DeniedIsSpent(s: E.State, t: E.ThreadId, now: int, p: Policy, lag: int)
    requires E.Windows(s, now, p, lag) && Denies(s, t)
    ensures CountAfter(E.LogOf(s, s.threads[t].key).stamps, s.threads[t].stamp - p.window - lag) >= p.limit
  {
    var th := s.threads[t];
    assert E.ThreadFits(s.heap, th) && E.ThreadOk(s.heap, th, now, p, lag);
    assert E.InTable(s, th.key, th.e);
    assert E.KeyOk(s, th.key, now, p, lag);
    FullMeansSpent(s.heap[th.e].entry, E.LogOf(s, th.key), th.stamp, now, p, lag);
  }

  /** A step that leaves its call denied was taken under the lock of a live entry: a detached entry
      always admits. */
  lemma DeniedUnderLock(s: E.State, t: E.ThreadId, now: int, minTTL: int, s': E.State)
    requires E.Protocol(s) && E.Enabled(s, E.Advance(t)) && s' == E.Next(s, E.Advance(t), now, minTTL)
    requires t in s'.threads && s'.threads[t].Returned? && !s'.threads[t].allowed
    ensures E.InAllow(s.threads[t]) && Denies(s, t) && s'.threads[t].stamp == s.threads[t].stamp
    ensures s'.threads[t].key == s.threads[t].key
  {
    if !E.InAllow(s.threads[t]) {
      OthersNeverReturn(s, t, now, minTTL, s');
    } else {
      assert E.ThreadFits(s.heap, s.threads[t]);
    }
  }

  lemma OthersNeverReturn(s: E.State, t: E.ThreadId, now: int, minTTL: int, s': E.State)
    requires E.Enabled(s, E.Advance(t)) && s' == E.Next(s, E.Advance(t), now, minTTL) && !E.InAllow(s.threads[t])
    ensures t in s'.threads && !s'.threads[t].Returned?
  {
  }

  // Admissions on record are those of calls that were admitted.

  ghost predicate HonestLog(s: E.State, key: string) {
    var log := E.LogOf(s, key);
    && |log.ids| == |log.stamps|
    && (forall i, j :: 0 <= i < j < |log.ids| ==> log.ids[i] != log.ids[j])
    && forall i :: 0 <= i < |log.ids| ==> AdmittedBy(s, key, log.stamps[i], log.ids[i])
  }

  predicate AdmittedBy(s: E.State, key: string, stamp: int, t: E.ThreadId) {
    && t in s.threads && E.Admitted(s.threads[t]) && !s.threads[t].detached
    && s.threads[t].key == key && s.threads[t].stamp == stamp
  }

  ghost predicate Honest(s: E.State) {
    forall key :: HonestLog(s, key)
  }

  /** An answer is final. */
  lemma AnswersStay(s: E.State, step: E.Step, now: int, minTTL: int, s': E.State, key: string, stamp: int,
                    t: E.ThreadId)
    requires E.Enabled(s, step) && s' == E.Next(s, step, now, minTTL) && AdmittedBy(s, key, stamp, t)
    ensures AdmittedBy(s', key, stamp, t)
  {
    assert step.t != t;
    if step.Advance? && !E.InAllow(s.threads[step.t]) { OthersMoveOnly(s, step.t, now, minTTL, s'); }
    else if step.Advance? { CallMovesOnly(s, step.t, now, s'); }
  }

  lemma CallMovesOnly(s: E.State, t: E.ThreadId, now: int, s': E.State)
    requires E.Enabled(s, E.Advance(t)) && E.InAllow(s.threads[t]) && s' == E.AllowStep(s, t, now)
    ensures t in s'.threads && s'.threads == s.threads[t := s'.threads[t]]
  {
  }

  lemma OthersMoveOnly(s: E.State, t: E.ThreadId, now: int, minTTL: int, s': E.State)
    requires E.Enabled(s, E.Advance(t)) && !E.InAllow(s.threads[t]) && s' == E.AdvanceThread(s, t, now, minTTL)
    ensures t in s'.threads && s'.threads == s.threads[t := s'.threads[t]] && s'.logs == s.logs
  {
  }

  lemma HonestKept(s: E.State, step: E.Step, now: int, minTTL: int, s': E.State, key: string)
    requires HonestLog(s, key) && E.Enabled(s, step) && s' == E.Next(s, step, now, minTTL)
    ensures HonestLog(s', key)
  {
    var log, log' := E.LogOf(s, key), E.LogOf(s', key);
    forall i | 0 <= i < |log.ids| ensures AdmittedBy(s', key, log.stamps[i], log.ids[i]) {
      AnswersStay(s, step, now, minTTL, s', key, log.stamps[i], log.ids[i]);
    }
    if step.Advance? && s.threads[step.t].Lock? && !s.heap[s.threads[step.t].e].entry.dead {
      LockedRecord(s, step.t, now, minTTL, s', key);
    } else {
      E.QuietStep(s, step, now, minTTL);
    }
  }

  /** A decision under the lock records its own admission, and nothing else. */
  lemma LockedRecord(s: E.State, t: E.ThreadId, now: int, minTTL: int, s': E.State, key: string)
    requires E.Enabled(s, E.Advance(t)) && s' == E.Next(s, E.Advance(t), now, minTTL)
    requires s.threads[t].Lock? && !s.heap[s.threads[t].e].entry.dead
    ensures E.LogOf(s', key) == E.LogOf(s, key)
            || (exists stamp :: AdmittedBy(s', key, stamp, t)
                                && E.LogOf(s', key).stamps == E.LogOf(s, key).stamps + [stamp]
                                && E.LogOf(s', key).ids == E.LogOf(s, key).ids + [t])
  {
    if s'.threads[t].allowed && key == s.threads[t].key {
      assert AdmittedBy(s', key, s.threads[t].stamp, t);
    }
  }

  lemma {:induction false} HonestInEveryRun(run: seq<E.Event>, minTTL: int)
    requires E.Run(run, minTTL)
    ensures Honest(E.After(run, minTTL))
  {
    if run != [] {
      var n := |run| - 1;
      HonestInEveryRun(run[..n], minTTL);
      var s, s' := E.After(run[..n], minTTL), E.After(run, minTTL);
      forall key ensures HonestLog(s', key) {
        assert HonestLog(s, key);
        HonestKept(s, run[n].step, run[n].at, minTTL, s', key);
      }
    }
  }

  /** Distinct callers make a set as large as their stamps are many. */
  lemma {:induction false} CallersCount(stamps: seq<int>, ids: seq<E.ThreadId>, a: int, callers: set<E.ThreadId>)
    requires |ids| == |stamps| && forall i, j :: 0 <= i < j < |ids| ==> ids[i] != ids[j]
    requires forall i :: 0 <= i < |ids| && stamps[i] > a ==> ids[i] in callers
    ensures CountAfter(stamps, a) <= |callers|
  {
    if stamps != [] {
      var n := |stamps| - 1;
      if stamps[n] > a {
        CallersCount(stamps[..n], ids[..n], a, callers - {ids[n]});
      } else {
        CallersCount(stamps[..n], ids[..n], a, callers);
      }
    }
  }

  lemma SpentBy(s: E.State, key: string, a: int, now: int)
    requires HonestLog(s, key) && AllAtMost(E.LogOf(s, key).stamps, now)
    ensures CountAfter(E.LogOf(s, key).stamps, a) <= |E.Answers(s, key, a, now)|
  {
    var log := E.LogOf(s, key);
    CallersCount(log.stamps, log.ids, a, E.Answers(s, key, a, now));
  }

  lemma DeniedStep(s: E.State, t: E.ThreadId, now: int, minTTL: int, p: Policy, lag: int, s': E.State, key: string,
                   a: int)
    requires E.Windows(s, now, p, lag) && Honest(s) && E.Enabled(s, E.Advance(t))
    requires s' == E.Next(s, E.Advance(t), now, minTTL)
    requires t in s'.threads && s'.threads[t].Returned? && !s'.threads[t].allowed
    requires key == s'.threads[t].key && a == s'.threads[t].stamp - p.window - lag
    ensures |E.Answers(s, key, a, now)| >= p.limit
  {
    DeniedUnderLock(s, t, now, minTTL, s');
    DeniedIsSpent(s, t, now, p, lag);
    assert HonestLog(s, key) && E.KeyOk(s, key, now, p, lag);
    SpentBy(s, key, a, now);
  }

  /** In every timely run, a call is denied only after `limit` other calls for its key have been admitted
      with stamps within the window and the lag before its own. With no lag that is the window itself. */
  lemma DeniedOnlyWhenSpent(run: seq<E.Event>, at: int, minTTL: int, p: Policy, lag: int, t: E.ThreadId, s: E.State,
                            s': E.State, key: string, a: int)
    requires E.Run(run, minTTL) && E.TimelyRun(run, minTTL, p, lag) && p.Enforceable() && 0 <= lag <= p.window
    requires (run != [] ==> run[|run| - 1].at <= at) && s == E.After(run, minTTL)
    requires E.Enabled(s, E.Advance(t)) && s' == E.Next(s, E.Advance(t), at, minTTL)
    requires t in s'.threads && s'.threads[t].Returned? && !s'.threads[t].allowed
    requires key == s'.threads[t].key && a == s'.threads[t].stamp - p.window - lag
    ensures |E.Answers(s, key, a, at)| >= p.limit
  {
    E.WindowsInEveryRun(run, minTTL, p, lag, at);
    HonestInEveryRun(run, minTTL);
    DeniedStep(s, t, at, minTTL, p, lag, s', key, a);
  }
}
