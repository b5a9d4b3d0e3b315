/** How long an idle key of the in-memory limiter has to be kept (internal/limiter/memory.go, `cleanup`). */
module Margin {
  import opened Policies
  import opened SlidingWindow
  import M = MemoryModel
  import E = Eviction
  import J = Janitor

  /** A run of timely steps up to `now`. */
  ghost predicate Reaches(run: seq<E.Event>, minTTL: int, p: Policy, lag: int, now: int) {
    E.Run(run, minTTL) && E.TimelyRun(run, minTTL, p, lag) && (run != [] ==> run[|run| - 1].at <= now)
  }

  /** If the key's entry has been idle for more than `ttl`, no admission of the key is in its window. */
  ghost predicate SafeToDrop(s: E.State, key: E.Key, now: int, p: Policy, ttl: int) {
    && key in s.table && s.table[key] < |s.heap| && !s.heap[s.table[key]].entry.dead
    && now - s.heap[s.table[key]].entry.lastSeen > ttl
    ==> AllAtMost(E.LogOf(s, key).stamps, now - p.window)
  }

  /** An entry idle for long enough has left every window with all its key's admissions. */
  lemma IdleIsExpired(v: M.Entry, stamps: seq<int>, now: int, p: Policy, lag: int, ttl: int)
    requires E.LiveOk(v, stamps, now, p, lag) && now - v.lastSeen > ttl && ttl + 1 >= p.window + lag
    ensures AllAtMost(stamps, now - p.window)
  {
    var n := |stamps| - |v.hits|;
    forall i | 0 <= i < |stamps| ensures stamps[i] <= now - p.window {
      if i >= n { assert v.hits[i - n] == stamps[i]; }
    }
  }

  lemma LongEnough(run: seq<E.Event>, minTTL: int, p: Policy, lag: int, now: int, key: E.Key, ttl: int)
    requires p.Enforceable() && 0 <= lag <= p.window && ttl + 1 >= p.window + lag
    requires Reaches(run, minTTL, p, lag, now)
    ensures SafeToDrop(E.After(run, minTTL), key, now, p, ttl)
  {
    var s := E.After(run, minTTL);
    E.WindowsInEveryRun(run, minTTL, p, lag, now);
    assert E.KeyOk(s, key, now, p, lag);
    if key in s.table && !s.heap[s.table[key]].entry.dead && now - s.heap[s.table[key]].entry.lastSeen > ttl {
      IdleIsExpired(s.heap[s.table[key]].entry, E.LogOf(s, key).stamps, now, p, lag, ttl);
    }
  }

  // ---------------------------------------------------------------- a run that needs all of it

  /** Two callers of one key and its entry. */
  ghost predicate Pair(s: E.State, key: E.Key, v: M.Entry, a: E.Thread, b: E.Thread) {
    && |s.heap| == 1 && s.heap[0] == E.Cell(key, v) && key in s.table && s.table[key] == 0
    && 0 in s.threads && s.threads[0] == a && 1 in s.threads && s.threads[1] == b
  }

  lemma Take(run: seq<E.Event>, e: E.Event, minTTL: int, p: Policy, lag: int, s: E.State)
    requires Reaches(run, minTTL, p, lag, e.at) && E.After(run, minTTL) == s
    requires E.Enabled(s, e.step) && E.Timely(s, e.step, e.at, p, lag)
    ensures Reaches(run + [e], minTTL, p, lag, e.at) && E.After(run + [e], minTTL) == E.Next(s, e.step, e.at, minTTL)
  {
    J.RunSnoc(run, e, minTTL);
    J.TimelySnoc(run, e, minTTL, p, lag);
  }

  /** Two callers have found the same new entry, the first of them `lag` ago. */
  lemma BothFound(minTTL: int, p: Policy, lag: int, key: E.Key) returns (run: seq<E.Event>)
    requires p.Enforceable() && 0 <= lag
    ensures Reaches(run, minTTL, p, lag, 0) && E.LogOf(E.After(run, minTTL), key).stamps == []
    ensures Pair(E.After(run, minTTL), key, M.FRESH, E.Store(key, -lag, p, 0, 0), E.Store(key, 0, p, 0, 0))
  {
    Take([], E.Event(-lag, E.CallAllow(0, key, p)), minTTL, p, lag, E.INITIAL);
    run := [] + [E.Event(-lag, E.CallAllow(0, key, p))];
    Take(run, E.Event(-lag, E.Advance(0)), minTTL, p, lag, E.After(run, minTTL));
    run := run + [E.Event(-lag, E.Advance(0))];
    Take(run, E.Event(0, E.CallAllow(1, key, p)), minTTL, p, lag, E.After(run, minTTL));
    run := run + [E.Event(0, E.CallAllow(1, key, p))];
    Take(run, E.Event(0, E.Advance(1)), minTTL, p, lag, E.After(run, minTTL));
    run := run + [E.Event(0, E.Advance(1))];
  }

  /** The second caller stores its instant, then the first one its older one, then the second decides. */
  lemma SetBack(minTTL: int, p: Policy, lag: int, key: E.Key) returns (run: seq<E.Event>)
    requires p.Enforceable() && 0 <= lag
    ensures Reaches(run, minTTL, p, lag, 0) && E.LogOf(E.After(run, minTTL), key).stamps == [0]
    ensures var s := E.After(run, minTTL);
            && key in s.table && s.table[key] < |s.heap|
            && !s.heap[s.table[key]].entry.dead && s.heap[s.table[key]].entry.lastSeen == -lag
  {
    run := BothFound(minTTL, p, lag, key);
    Take(run, E.Event(0, E.Advance(1)), minTTL, p, lag, E.After(run, minTTL));
    run := run + [E.Event(0, E.Advance(1))];
    Take(run, E.Event(0, E.Advance(0)), minTTL, p, lag, E.After(run, minTTL));
    run := run + [E.Event(0, E.Advance(0))];
    assert Pair(E.After(run, minTTL), key, M.Entry([], 0, false, -lag), E.Lock(key, -lag, p, 0, 0),
                E.Lock(key, 0, p, 0, 0));
    Take(run, E.Event(0, E.Advance(1)), minTTL, p, lag, E.After(run, minTTL));
    run := run + [E.Event(0, E.Advance(1))];
  }

  /** How long an idle key must be kept. In every timely run an entry idle for more than `ttl` can be
      dropped without losing an admission still in the window exactly when `ttl` covers the window and
      the lag by which a late caller may set `lastSeen` back; that is what the factor two in the
      janitor's bound provides. */
  lemma EvictionMargin(minTTL: int, p: Policy, lag: int, ttl: int)
    requires p.Enforceable() && 0 <= lag <= p.window
    ensures (forall run, key, now :: Reaches(run, minTTL, p, lag, now) ==>
                                       SafeToDrop(E.After(run, minTTL), key, now, p, ttl))
            <==> ttl + 1 >= p.window + lag
  {
    if ttl + 1 >= p.window + lag {
      forall run, key, now | Reaches(run, minTTL, p, lag, now)
        ensures SafeToDrop(E.After(run, minTTL), key, now, p, ttl)
      {
        LongEnough(run, minTTL, p, lag, now, key, ttl);
      }
    } else {
      var run := SetBack(minTTL, p, lag, "");
      var now := if ttl + 1 - lag >= 0 then ttl + 1 - lag else 0;
      assert E.LogOf(E.After(run, minTTL), "").stamps[0] == 0 > now - p.window;
      assert Reaches(run, minTTL, p, lag, now) && !SafeToDrop(E.After(run, minTTL), "", now, p, ttl);
    }
  }
}
