/** When the in-memory limiter counts right, whatever windows its callers use: internal/limiter/memory.go.

    Every prune leaves a horizon behind: what a key was admitted at or before it has been dropped. A
    caller who knows the calls made so far knows the horizon, and with it whether the next count will
    be right. */
module Horizon {
  import opened Policies
  import opened SlidingWindow
  import M = MemoryModel
  import F = FullHistory
  import G = Guarantees

  datatype Horizon = Nowhere | Upto(t: int)

  predicate Behind(t: int, h: Horizon) {
    h.Upto? && t <= h.t
  }

  function Raise(h: Horizon, t: int): Horizon {
    if Behind(t, h) then h else Upto(t)
  }

  /** The last call of Allow for a key: when, and with which window. */
  datatype Last = Never | At(now: int, window: int)

  function LastAllow(ops: seq<M.Op>, key: string): Last {
    if ops == [] then Never
    else
      var op := ops[|ops| - 1];
      if op.AllowOp? && op.key == key then At(op.now, op.policy.Normalize().window)
      else LastAllow(ops[..|ops| - 1], key)
  }

  /** The largest instant up to which the calls made so far have dropped a key's admissions: Allow and
      Peek prune at the start of their window, a janitor pass at the start of the last window used,
      and it drops a key altogether that has been idle for too long. */
  function HorizonOf(ops: seq<M.Op>, key: string, minTTL: int): Horizon {
    if ops == [] then Nowhere
    else
      var op, rest := ops[|ops| - 1], ops[..|ops| - 1];
      var h := HorizonOf(rest, key, minTTL);
      match op
      case AllowOp(now, k, policy) => if k == key then Raise(h, now - policy.Normalize().window) else h
      case PeekOp(now, k, policy) => if k == key then Raise(h, now - policy.Normalize().window) else h
      case CleanupOp(now) => Swept(h, LastAllow(rest, key), now, minTTL)
  }

  function Swept(h: Horizon, last: Last, now: int, minTTL: int): Horizon {
    match last
    case Never => h
    case At(then_, window) =>
      var ttl := if 2 * window < minTTL then minTTL else 2 * window;
      Raise(h, if now - then_ > ttl then then_ else now - window)
  }

  ghost predicate ClockForward(ops: seq<M.Op>) {
    forall i, j :: 0 <= i < j < |ops| ==> ops[i].now <= ops[j].now
  }

  /** The hits kept are the admissions beyond the horizon. */
  ghost predicate Holds(hits: seq<int>, log: seq<int>, h: Horizon) {
    && |hits| <= |log|
    && (forall i :: 0 <= i < |hits| ==> hits[i] == log[|log| - |hits| + i] && !Behind(hits[i], h))
    && (forall i :: 0 <= i < |log| - |hits| ==> Behind(log[i], h))
  }

  /** What the table holds for one key. */
  datatype Slot = Empty | Filled(e: M.Entry) {
    function Hits(): seq<int> {
      if Filled? then e.hits else []
    }
  }

  function Get(t: M.Table, key: string): Slot {
    if key in t then Filled(t[key]) else Empty
  }

  /** What is known of a key at an instant, after a run in which it admitted `log`. */
  ghost predicate Known(s: Slot, log: seq<int>, h: Horizon, last: Last, now: int) {
    && Ascending(log) && AllAtMost(log, now)
    && (h.Upto? ==> h.t < now)
    && Holds(s.Hits(), log, h)
    && Fits(s, last)
    && match last
       case Never => log == []
       case At(then_, window) => then_ <= now && window > 0 && AllAtMost(log, then_)
  }

  /** An entry remembers the last call of Allow. */
  predicate Fits(s: Slot, last: Last) {
    s.Filled? ==> !s.e.dead && last.At? && s.e.lastSeen == last.now && s.e.window == last.window
  }

  lemma PruneAllBeyond(hits: seq<int>, cutoff: int)
    requires Ascending(hits)
    ensures var r := Prune(hits, cutoff); forall i :: 0 <= i < |r| ==> r[i] > cutoff
  {
    PruneShape(hits, cutoff);
    var r := Prune(hits, cutoff);
    forall i | 0 <= i < |r| ensures r[i] > cutoff {
      assert r[i] == hits[|hits| - |r| + i] && r[0] == hits[|hits| - |r|];
    }
  }

  lemma HoldsAscending(hits: seq<int>, log: seq<int>, h: Horizon)
    requires Holds(hits, log, h) && Ascending(log)
    ensures Ascending(hits)
  {
  }

  lemma PruneHolds(hits: seq<int>, log: seq<int>, h: Horizon, cutoff: int)
    requires Holds(hits, log, h) && Ascending(log)
    ensures Holds(Prune(hits, cutoff), log, Raise(h, cutoff))
  {
    HoldsAscending(hits, log, h);
    PruneAllBeyond(hits, cutoff);
    PruneShape(hits, cutoff);
    SuffixHolds(hits, log, h, cutoff, Prune(hits, cutoff));
  }

  lemma SuffixHolds(hits: seq<int>, log: seq<int>, h: Horizon, cutoff: int, r: seq<int>)
    requires Holds(hits, log, h) && |r| <= |hits|
    requires forall i :: 0 <= i < |r| ==> r[i] == hits[|hits| - |r| + i]
    requires forall i :: 0 <= i < |r| ==> r[i] > cutoff
    requires forall i :: 0 <= i < |hits| - |r| ==> hits[i] <= cutoff
    ensures Holds(r, log, Raise(h, cutoff))
  {
    var n := |log| - |hits|;
    forall i | 0 <= i < |log| - |r| ensures Behind(log[i], Raise(h, cutoff)) {
      if i >= n { assert log[i] == hits[i - n]; }
    }
  }

  lemma AppendHolds(hits: seq<int>, log: seq<int>, h: Horizon, t: int)
    requires Holds(hits, log, h) && !Behind(t, h)
    ensures Holds(hits + [t], log + [t], h)
  {
  }

  lemma EmptyHolds(log: seq<int>, h: Horizon)
    requires forall i :: 0 <= i < |log| ==> Behind(log[i], h)
    ensures Holds([], log, h)
  {
  }

  /** Some admission in the window lies behind the horizon. */
  ghost predicate Misses(log: seq<int>, h: Horizon, cutoff: int) {
    exists i :: 0 <= i < |log| && log[i] > cutoff && Behind(log[i], h)
  }

  lemma KeptNotBehind(hits: seq<int>, log: seq<int>, h: Horizon, i: nat)
    requires Holds(hits, log, h) && |log| - |hits| <= i < |log|
    ensures !Behind(log[i], h)
  {
    assert hits[i - (|log| - |hits|)] == log[i];
  }

  lemma DroppedInWindow(hits: seq<int>, log: seq<int>, h: Horizon, cutoff: int)
    requires Holds(hits, log, h)
    ensures Misses(log, h, cutoff) <==> exists i :: 0 <= i < |log| - |hits| && log[i] > cutoff
  {
    forall i | |log| - |hits| <= i < |log| ensures !Behind(log[i], h) {
      KeptNotBehind(hits, log, h, i);
    }
  }

  lemma TakeAtMost(log: seq<int>, n: nat, cutoff: int)
    requires n <= |log|
    ensures AllAtMost(log[..n], cutoff) <==> !exists i :: 0 <= i < n && log[i] > cutoff
  {
    if exists i :: 0 <= i < n && log[i] > cutoff {
      var i :| 0 <= i < n && log[i] > cutoff;
      assert log[..n][i] > cutoff;
    }
  }

  /** The count is right exactly when no admission in the window lies behind the horizon. */
  lemma FoundExactlyWhen(hits: seq<int>, log: seq<int>, h: Horizon, cutoff: int)
    requires Holds(hits, log, h) && Ascending(log)
    ensures |Prune(hits, cutoff)| == CountAfter(log, cutoff) <==> !Misses(log, h, cutoff)
  {
    F.CountsExactlyWhen(hits, log, cutoff);
    TakeAtMost(log, |log| - |hits|, cutoff);
    DroppedInWindow(hits, log, h, cutoff);
  }

  // ---------------------------------------------------------------- one key, call by call

  function Fresh(s: Slot): M.Entry {
    if s.Filled? && !s.e.dead then s.e else M.FRESH
  }

  function AfterAllow(s: Slot, now: int, p: Policy): (M.Entry, Decision)
    requires p.Enforceable()
  {
    M.Decide(Fresh(s).(lastSeen := now), now, p)
  }

  function AfterPeek(s: Slot, cutoff: int): Slot {
    if s.Filled? then Filled(s.e.(hits := Prune(s.e.hits, cutoff))) else Empty
  }

  function AfterCleanup(s: Slot, now: int, minTTL: int): Slot {
    if s.Filled? && !M.Idle(s.e, now, minTTL) then Filled(M.Visit(s.e, now, minTTL)) else Empty
  }

  /** A decision, from the hits that are left in the window. */
  lemma AllowFinds(s: Slot, last: Last, now: int, p: Policy, r: seq<int>)
    requires Fits(s, last) && p.Enforceable() && r == Prune(s.Hits(), now - p.window)
    ensures var a := AfterAllow(s, now, p);
            && a.0.hits == (if |r| < p.limit then r + [now] else r)
            && a.1.allowed == (|r| < p.limit) && a.1.used == |r| + (if |r| < p.limit then 1 else 0)
            && Fits(Filled(a.0), At(now, p.window))
  {
    PruneShape(s.Hits(), now - p.window);
  }

  lemma AllowHolds(hits: seq<int>, log: seq<int>, h: Horizon, now: int, p: Policy, r: seq<int>)
    requires Holds(hits, log, h) && Ascending(log) && p.Enforceable() && (h.Upto? ==> h.t < now)
    requires r == Prune(hits, now - p.window)
    ensures Holds(if |r| < p.limit then r + [now] else r, if |r| < p.limit then log + [now] else log,
                  Raise(h, now - p.window))
  {
    PruneHolds(hits, log, h, now - p.window);
    if |r| < p.limit { AppendHolds(r, log, Raise(h, now - p.window), now); }
  }

  lemma LogGrows(log: seq<int>, now: int, now': int)
    requires Ascending(log) && AllAtMost(log, now) && now <= now'
    ensures Ascending(log + [now']) && AllAtMost(log + [now'], now')
  {
  }

  lemma AllowKnown(s: Slot, log: seq<int>, h: Horizon, last: Last, now: int, now': int, p: Policy, s': Slot,
                   log': seq<int>, h': Horizon, last': Last)
    requires Known(s, log, h, last, now) && now <= now' && p.Enforceable()
    requires var a := AfterAllow(s, now', p);
             s' == Filled(a.0) && log' == if a.1.allowed then log + [now'] else log
    requires h' == Raise(h, now' - p.window) && last' == At(now', p.window)
    ensures Known(s', log', h', last', now')
  {
    var r := Prune(s.Hits(), now' - p.window);
    AllowFinds(s, last, now', p, r);
    AllowHolds(s.Hits(), log, h, now', p, r);
    LogGrows(log, now, now');
  }

  lemma PeekKnown(s: Slot, log: seq<int>, h: Horizon, last: Last, now: int, now': int, cutoff: int, s': Slot,
                  h': Horizon)
    requires Known(s, log, h, last, now) && now <= now' && cutoff < now'
    requires s' == AfterPeek(s, cutoff) && h' == Raise(h, cutoff)
    ensures Known(s', log, h', last, now')
  {
    PruneHolds(s.Hits(), log, h, cutoff);
  }

  lemma CleanupKnown(s: Slot, log: seq<int>, h: Horizon, last: Last, now: int, now': int, minTTL: int, s': Slot,
                     h': Horizon)
    requires Known(s, log, h, last, now) && now <= now'
    requires s' == AfterCleanup(s, now', minTTL) && h' == Swept(h, last, now', minTTL)
    ensures Known(s', log, h', last, now')
  {
    if s.Filled? {
      if M.Idle(s.e, now', minTTL) {
        EmptyHolds(log, h');
      } else {
        PruneHolds(s.e.hits, log, h, now' - s.e.window);
      }
    } else if last.At? {
      EmptyHolds(log, h');
    }
  }

  lemma TimeKnown(s: Slot, log: seq<int>, h: Horizon, last: Last, now: int, now': int)
    requires Known(s, log, h, last, now) && now <= now'
    ensures Known(s, log, h, last, now')
  {
  }

  // ---------------------------------------------------------------- runs

  /** What a call does to the slot of a key, and what it replies. */
  lemma SlotStep(t: M.Table, op: M.Op, key: string, minTTL: int)
    ensures var r := M.Step(t, op, minTTL);
            match op
            case AllowOp(now, k, policy) =>
              if k == key
              then var a := AfterAllow(Get(t, key), now, policy.Normalize());
                   Get(r.0, key) == Filled(a.0) && r.1 == M.Decided(a.1)
              else Get(r.0, key) == Get(t, key)
            case PeekOp(now, k, policy) =>
              if k == key
              then var s := AfterPeek(Get(t, key), now - policy.Normalize().window);
                   Get(r.0, key) == s && r.1 == M.Used(|s.Hits()|)
              else Get(r.0, key) == Get(t, key)
            case CleanupOp(now) => Get(r.0, key) == AfterCleanup(Get(t, key), now, minTTL)
  {
  }

  ghost predicate KnownAfter(ops: seq<M.Op>, key: string, minTTL: int, now: int) {
    Known(Get(M.Run(ops, minTTL), key), G.Accepted(ops, key, minTTL), HorizonOf(ops, key, minTTL),
          LastAllow(ops, key), now)
  }

  lemma StepKnown(ops: seq<M.Op>, key: string, minTTL: int, now: int)
    requires ops != [] && KnownAfter(ops[..|ops| - 1], key, minTTL, now) && now <= ops[|ops| - 1].now
    ensures KnownAfter(ops, key, minTTL, ops[|ops| - 1].now)
  {
    var op, rest := ops[|ops| - 1], ops[..|ops| - 1];
    var s, log := Get(M.Run(rest, minTTL), key), G.Accepted(rest, key, minTTL);
    var h, last := HorizonOf(rest, key, minTTL), LastAllow(rest, key);
    var s', h' := Get(M.Run(ops, minTTL), key), HorizonOf(ops, key, minTTL);
    SlotStep(M.Run(rest, minTTL), op, key, minTTL);
    if op.CleanupOp? {
      CleanupKnown(s, log, h, last, now, op.now, minTTL, s', h');
    } else if op.key != key {
      TimeKnown(s, log, h, last, now, op.now);
    } else if op.PeekOp? {
      PeekKnown(s, log, h, last, now, op.now, op.now - op.policy.Normalize().window, s', h');
    } else {
      AllowKnown(s, log, h, last, now, op.now, op.policy.Normalize(), s', G.Accepted(ops, key, minTTL), h',
                 LastAllow(ops, key));
    }
  }

  lemma {:induction false} RunKnown(ops: seq<M.Op>, key: string, minTTL: int, now: int)
    requires ClockForward(ops) && (ops != [] ==> ops[|ops| - 1].now <= now)
    ensures KnownAfter(ops, key, minTTL, now)
  {
    if ops != [] {
      var n := |ops| - 1;
      RunKnown(ops[..n], key, minTTL, ops[n].now);
      StepKnown(ops, key, minTTL, ops[n].now);
      TimeKnown(Get(M.Run(ops, minTTL), key), G.Accepted(ops, key, minTTL), HorizonOf(ops, key, minTTL),
                LastAllow(ops, key), ops[n].now, now);
    }
  }

  /** The count behind a reply: how many earlier requests of the key were found in the window. */
  function Counted(r: M.Reply): int
    requires !r.Done?
  {
    if r.Used? then r.used else r.decision.used - if r.decision.allowed then 1 else 0
  }

  lemma CountedIsFound(t: M.Table, op: M.Op, last: Last, minTTL: int)
    requires !op.CleanupOp? && Fits(Get(t, op.key), last)
    ensures var r := M.Step(t, op, minTTL).1;
            !r.Done? && Counted(r) == |Prune(Get(t, op.key).Hits(), op.now - op.policy.Normalize().window)|
  {
    SlotStep(t, op, op.key, minTTL);
    if op.AllowOp? {
      var p := op.policy.Normalize();
      AllowFinds(Get(t, op.key), last, op.now, p, Prune(Get(t, op.key).Hits(), op.now - p.window));
    }
  }

  /** In every run with a nondecreasing clock, whatever windows are used, the count a call of Allow or
      Peek goes by is the number of the key's own admissions in its window if and only if none of
      those lies at or before the horizon the earlier calls have left. */
  lemma CountsRightExactlyWhen(ops: seq<M.Op>, minTTL: int)
    requires ClockForward(ops) && ops != [] && !ops[|ops| - 1].CleanupOp?
    ensures var op, rest := ops[|ops| - 1], ops[..|ops| - 1];
            var log, cutoff := G.Accepted(rest, op.key, minTTL), op.now - op.policy.Normalize().window;
            Counted(M.LastReply(ops, minTTL)) == CountAfter(log, cutoff)
            <==> !Misses(log, HorizonOf(rest, op.key, minTTL), cutoff)
  {
    var op, rest := ops[|ops| - 1], ops[..|ops| - 1];
    var t := M.Run(rest, minTTL);
    RunKnown(rest, op.key, minTTL, op.now);
    FoundExactlyWhen(Get(t, op.key).Hits(), G.Accepted(rest, op.key, minTTL), HorizonOf(rest, op.key, minTTL),
                     op.now - op.policy.Normalize().window);
    CountedIsFound(t, op, LastAllow(rest, op.key), minTTL);
  }

  // ---------------------------------------------------------------- which keys are kept

  /** Is a key in the table? It is from its first Allow until a janitor pass that comes more than two of
      the windows last used, and more than `minTTL`, after its last one. */
  predicate Tracked(ops: seq<M.Op>, key: string, minTTL: int) {
    if ops == [] then false
    else
      var op, rest := ops[|ops| - 1], ops[..|ops| - 1];
      match op
      case AllowOp(_, k, _) => k == key || Tracked(rest, key, minTTL)
      case PeekOp(_, _, _) => Tracked(rest, key, minTTL)
      case CleanupOp(now) =>
        Tracked(rest, key, minTTL) && match LastAllow(rest, key)
                                      case Never => false
                                      case At(then_, window) => now - then_ <= 2 * window || now - then_ <= minTTL
  }

  lemma CleanupTracks(t: M.Table, key: string, now: int, minTTL: int, last: Last)
    requires Fits(Get(t, key), last)
    ensures key in M.Cleanup(t, now, minTTL)
            <==> key in t && last.At? && (now - last.now <= 2 * last.window || now - last.now <= minTTL)
  {
  }

  /** The janitor in every run with a nondecreasing clock, told from the calls alone: which keys are in
      the table depends on nothing but when each was last asked for, and under which window. */
  lemma {:induction false} TrackedInEveryRun(ops: seq<M.Op>, key: string, minTTL: int)
    requires ClockForward(ops)
    ensures key in M.Run(ops, minTTL) <==> Tracked(ops, key, minTTL)
  {
    if ops != [] {
      var n := |ops| - 1;
      TrackedInEveryRun(ops[..n], key, minTTL);
      if ops[n].CleanupOp? {
        RunKnown(ops[..n], key, minTTL, ops[n].now);
        CleanupTracks(M.Run(ops[..n], minTTL), key, ops[n].now, minTTL, LastAllow(ops[..n], key));
      }
    }
  }
}
