/** What the in-memory limiter guarantees in every sequential run, proved of its actual replies by
    way of the full history (internal/limiter/memory.go, scripts/test_load.sh). */
module Guarantees {
  import opened Policies
  import opened SlidingWindow
  import M = MemoryModel
  import F = FullHistory

  /** When the requests of one key arrive in a run. */
  function Arrivals(ops: seq<M.Op>, key: string): seq<int> {
    if ops == [] then []
    else
      var op := ops[|ops| - 1];
      var earlier := Arrivals(ops[..|ops| - 1], key);
      if op.AllowOp? && op.key == key then earlier + [op.now] else earlier
  }

  /** When the in-memory limiter admitted requests of one key in a run. */
  function Accepted(ops: seq<M.Op>, key: string, minTTL: int): seq<int> {
    if ops == [] then []
    else
      var op := ops[|ops| - 1];
      var earlier := Accepted(ops[..|ops| - 1], key, minTTL);
      if op.AllowOp? && op.key == key && M.LastReply(ops, minTTL).decision.allowed then earlier + [op.now]
      else earlier
  }

  ghost predicate FixedPolicy(ops: seq<M.Op>, key: string, p: Policy) {
    && p.Enforceable()
    && forall i :: 0 <= i < |ops| && ops[i].AllowOp? && ops[i].key == key ==> ops[i].policy.Normalize() == p
  }

  /** The arrivals picked by a selection. */
  function Chosen(times: seq<int>, pick: seq<bool>): seq<int>
    requires |pick| == |times|
  {
    if times == [] then []
    else
      var n := |times| - 1;
      var earlier := Chosen(times[..n], pick[..n]);
      if pick[n] then earlier + [times[n]] else earlier
  }

  /** Accepting whenever the window has room. */
  function Greedy(times: seq<int>, limit: int, window: int): (pick: seq<bool>)
    ensures |pick| == |times|
  {
    if times == [] then []
    else
      var n := |times| - 1;
      var pick := Greedy(times[..n], limit, window);
      pick + [CountAfter(Chosen(times[..n], pick), times[n] - window) < limit]
  }

  function GreedyLog(times: seq<int>, limit: int, window: int): seq<int> {
    Chosen(times, Greedy(times, limit, window))
  }

  /** No window of at most the given width holds more than `limit` stamps. */
  ghost predicate Feasible(stamps: seq<int>, limit: int, window: int) {
    forall a, b :: b <= a + window ==> CountIn(stamps, a, b) <= limit
  }

  lemma GreedyLogStep(times: seq<int>, limit: int, window: int)
    requires times != []
    ensures var n := |times| - 1;
            var log := GreedyLog(times[..n], limit, window);
            GreedyLog(times, limit, window) ==
            if CountAfter(log, times[n] - window) < limit then log + [times[n]] else log
  {
    var n := |times| - 1;
    var pick := Greedy(times[..n], limit, window);
    assert Greedy(times, limit, window)[..n] == pick;
  }

  lemma ArrivalsInOrder(ops: seq<M.Op>, key: string)
    requires F.InOrder(ops)
    ensures Ascending(Arrivals(ops, key))
    ensures ops != [] ==> AllAtMost(Arrivals(ops, key), ops[|ops| - 1].now)
  {
    if ops != [] {
      var n := |ops| - 1;
      F.InOrderPrefix(ops, n);
      ArrivalsInOrder(ops[..n], key);
      if n > 0 { assert ops[..n][n - 1].now <= ops[n].now; }
    }
  }

  /** Under a fixed policy the limiter admits exactly the greedy selection, and its full history
      records exactly what it admitted. */
  lemma {:induction false} AcceptedIsGreedy(ops: seq<M.Op>, key: string, p: Policy, minTTL: int)
    requires F.InOrder(ops) && FixedPolicy(ops, key, p)
    ensures Accepted(ops, key, minTTL) == GreedyLog(Arrivals(ops, key), p.limit, p.window)
    ensures F.Admitted(F.Run(ops, Memory), key) == Accepted(ops, key, minTTL)
  {
    if ops != [] {
      var n := |ops| - 1;
      F.InOrderPrefix(ops, n);
      FixedPolicyPrefix(ops, n, key, p);
      AcceptedIsGreedy(ops[..n], key, p, minTTL);
      var op, log := ops[n], Accepted(ops[..n], key, minTTL);
      if op.AllowOp? && op.key == key {
        var log' := if CountAfter(log, op.now - p.window) < p.limit then log + [op.now] else log;
        AcceptedStep(ops, key, p, minTTL, op, ops[..n], log, log');
        ArrivalStep(ops, key, p, op, ops[..n], log, log');
      } else {
        NotForKey(ops, key, minTTL);
      }
    }
  }

  lemma FixedPolicyPrefix(ops: seq<M.Op>, n: nat, key: string, p: Policy)
    requires FixedPolicy(ops, key, p) && n <= |ops|
    ensures FixedPolicy(ops[..n], key, p)
  {
  }

  lemma NotForKey(ops: seq<M.Op>, key: string, minTTL: int)
    requires ops != [] && !(ops[|ops| - 1].AllowOp? && ops[|ops| - 1].key == key)
    ensures var rest := ops[..|ops| - 1];
            && Accepted(ops, key, minTTL) == Accepted(rest, key, minTTL)
            && Arrivals(ops, key) == Arrivals(rest, key)
            && F.Admitted(F.Run(ops, Memory), key) == F.Admitted(F.Run(rest, Memory), key)
  {
    OtherHistoryStep(F.Run(ops[..|ops| - 1], Memory), ops[|ops| - 1], key);
  }

  lemma OtherHistoryStep(h: F.History, op: M.Op, key: string)
    requires !(op.AllowOp? && op.key == key)
    ensures F.Admitted(F.Step(h, op, Memory).0, key) == F.Admitted(h, key)
  {
  }

  /** One more request is admitted exactly when the log has room for it. */
  lemma AcceptedStep(ops: seq<M.Op>, key: string, p: Policy, minTTL: int, op: M.Op, rest: seq<M.Op>, log: seq<int>,
                     log': seq<int>)
    requires F.InOrder(ops) && FixedPolicy(ops, key, p)
    requires ops != [] && op == ops[|ops| - 1] && rest == ops[..|ops| - 1] && op.AllowOp? && op.key == key
    requires log == F.Admitted(F.Run(rest, Memory), key) == Accepted(rest, key, minTTL)
    requires log' == if CountAfter(log, op.now - p.window) < p.limit then log + [op.now] else log
    ensures Accepted(ops, key, minTTL) == log' && F.Admitted(F.Run(ops, Memory), key) == log'
  {
    LastReplyFromHistory(ops, minTTL);
    HistoryStep(F.Run(rest, Memory), op, key, p);
    AcceptedUnfolds(ops, key, minTTL, F.Step(F.Run(rest, Memory), op, Memory).1);
  }

  lemma LastReplyFromHistory(ops: seq<M.Op>, minTTL: int)
    requires F.InOrder(ops) && ops != []
    ensures var r := F.Step(F.Run(ops[..|ops| - 1], Memory), ops[|ops| - 1], Memory);
            M.LastReply(ops, minTTL) == r.1 && F.Run(ops, Memory) == r.0
  {
    F.RefinesFullHistory(ops, minTTL);
  }

  lemma AcceptedUnfolds(ops: seq<M.Op>, key: string, minTTL: int, r: M.Reply)
    requires ops != [] && ops[|ops| - 1].AllowOp? && ops[|ops| - 1].key == key && r == M.LastReply(ops, minTTL)
    ensures var n := |ops| - 1;
            r.Decided? && Accepted(ops, key, minTTL)
            == if r.decision.allowed then Accepted(ops[..n], key, minTTL) + [ops[n].now]
               else Accepted(ops[..n], key, minTTL)
  {
  }

  lemma ArrivalStep(ops: seq<M.Op>, key: string, p: Policy, op: M.Op, rest: seq<M.Op>, log: seq<int>, log': seq<int>)
    requires ops != [] && op == ops[|ops| - 1] && rest == ops[..|ops| - 1] && op.AllowOp? && op.key == key
    requires log == GreedyLog(Arrivals(rest, key), p.limit, p.window)
    requires log' == if CountAfter(log, op.now - p.window) < p.limit then log + [op.now] else log
    ensures GreedyLog(Arrivals(ops, key), p.limit, p.window) == log'
  {
    GreedyLogSnoc(Arrivals(rest, key), op.now, p.limit, p.window);
  }

  lemma GreedyLogSnoc(times: seq<int>, t: int, limit: int, window: int)
    ensures var log := GreedyLog(times, limit, window);
            GreedyLog(times + [t], limit, window) == if CountAfter(log, t - window) < limit then log + [t] else log
  {
    assert (times + [t])[..|times|] == times;
    GreedyLogStep(times + [t], limit, window);
  }

  lemma HistoryStep(h: F.History, op: M.Op, key: string, p: Policy)
    requires op.AllowOp? && op.key == key && p.Enforceable() && op.policy.Normalize() == p
    ensures var log := F.Admitted(h, key);
            var admits := CountAfter(log, op.now - p.window) < p.limit;
            && F.Step(h, op, Memory).1.decision.allowed == admits
            && F.Admitted(F.Step(h, op, Memory).0, key) == if admits then log + [op.now] else log
  {
  }

  lemma {:induction false} GreedySpaced(times: seq<int>, limit: int, window: int)
    requires limit >= 1
    ensures var log := GreedyLog(times, limit, window); Spaced(log, log, limit, window, 0)
  {
    if times != [] {
      var n := |times| - 1;
      GreedySpaced(times[..n], limit, window);
      GreedyLogStep(times, limit, window);
      var log := GreedyLog(times[..n], limit, window);
      if CountAfter(log, times[n] - window) < limit {
        SpacedAppend(log, log, limit, window, 0, times[n], times[n]);
      }
    }
  }

  lemma GreedyFeasible(times: seq<int>, limit: int, window: int)
    requires limit >= 1
    ensures Feasible(GreedyLog(times, limit, window), limit, window)
  {
    var log := GreedyLog(times, limit, window);
    GreedySpaced(times, limit, window);
    forall a, b | b <= a + window ensures CountIn(log, a, b) <= limit {
      SpacedWindow(log, log, limit, window, 0, a);
      CountInWiden(log, a, b, a, a + window - 0);
    }
  }

  /** No window of the policy's width ever admits more than its limit. */
  lemma NoWindowOverflows(ops: seq<M.Op>, key: string, p: Policy, minTTL: int)
    requires F.InOrder(ops) && FixedPolicy(ops, key, p)
    ensures Feasible(Accepted(ops, key, minTTL), p.limit, p.window)
  {
    AcceptedIsGreedy(ops, key, p, minTTL);
    GreedyFeasible(Arrivals(ops, key), p.limit, p.window);
  }

  lemma {:induction false} FeasibleCeiling(stamps: seq<int>, limit: int, window: int, a: int, n: nat)
    requires Feasible(stamps, limit, window) && window > 0 && limit >= 0
    ensures CountIn(stamps, a, a + n * window) <= limit * n
  {
    if n == 0 {
      assert n * window == 0;
      CountInEmpty(stamps, a);
    } else {
      var mid := a + (n - 1) * window;
      assert mid + window == a + n * window;
      FeasibleCeiling(stamps, limit, window, a, n - 1);
      CountInSplit(stamps, a, mid, mid + window);
      assert limit * n == limit * (n - 1) + limit;
    }
  }

  lemma {:induction false} CountInEmpty(stamps: seq<int>, a: int)
    ensures CountIn(stamps, a, a) == 0
  {
    if stamps != [] { CountInEmpty(stamps[..|stamps| - 1], a); }
  }

  lemma WindowsCover(length: nat, window: int)
    requires window > 0
    ensures (length / window + 1) * window > length
  {
    var q, r := length / window, length % window;
    assert length == q * window + r && r < window;
    assert (q + 1) * window == q * window + window;
  }

  /** Over any closed interval of `length` at most limit * (length / window + 1) requests of a key
      are admitted; the load script allows a ceiling no lower than this. */
  lemma LongRunCeiling(ops: seq<M.Op>, key: string, p: Policy, minTTL: int, start: int, length: nat)
    requires F.InOrder(ops) && FixedPolicy(ops, key, p)
    ensures CountIn(Accepted(ops, key, minTTL), start - 1, start + length) <= p.limit * (length / p.window + 1)
  {
    NoWindowOverflows(ops, key, p, minTTL);
    FeasibleOver(Accepted(ops, key, minTTL), p.limit, p.window, start, length, length / p.window + 1);
  }

  lemma FeasibleOver(stamps: seq<int>, limit: int, window: int, start: int, length: nat, n: nat)
    requires Feasible(stamps, limit, window) && window > 0 && limit >= 0 && n == length / window + 1
    ensures CountIn(stamps, start - 1, start + length) <= limit * n
  {
    WindowsCover(length, window);
    FeasibleCeiling(stamps, limit, window, start - 1, n);
    CountInWiden(stamps, start - 1, start + length, start - 1, start - 1 + n * window);
  }

  lemma {:induction false} ChosenSplit(times: seq<int>, pick: seq<bool>, m: nat, c: int)
    requires |pick| == |times| && m <= |times|
    requires forall i :: 0 <= i < m ==> times[i] <= c
    requires forall i :: m <= i < |times| ==> times[i] > c
    ensures CountAfter(Chosen(times, pick), c) == |Chosen(times, pick)| - |Chosen(times[..m], pick[..m])|
    decreases |times|
  {
    if times != [] {
      var n := |times| - 1;
      if m == |times| {
        assert times[..m] == times && pick[..m] == pick;
        ChosenAtMost(times, pick, c);
        CountAfterNone(Chosen(times, pick), c);
      } else {
        assert times[..n][..m] == times[..m] && pick[..n][..m] == pick[..m];
        ChosenSplit(times[..n], pick[..n], m, c);
        CountAfterSnoc(Chosen(times[..n], pick[..n]), times[n], c);
      }
    }
  }

  lemma {:induction false} GreedyPrefix(times: seq<int>, limit: int, window: int, m: nat)
    requires m <= |times|
    ensures Greedy(times, limit, window)[..m] == Greedy(times[..m], limit, window)
  {
    if m == |times| {
      assert times[..m] == times;
    } else {
      var n := |times| - 1;
      GreedyPrefix(times[..n], limit, window, m);
      assert times[..n][..m] == times[..m];
    }
  }

  lemma {:induction false} ChosenAtMost(times: seq<int>, pick: seq<bool>, bound: int)
    requires |pick| == |times| && AllAtMost(times, bound)
    ensures AllAtMost(Chosen(times, pick), bound)
  {
    if times != [] { ChosenAtMost(times[..|times| - 1], pick[..|times| - 1], bound); }
  }

  lemma {:induction false} ChosenPrefix(times: seq<int>, pick: seq<bool>, m: nat)
    requires |pick| == |times| && m <= |times|
    ensures |Chosen(times[..m], pick[..m])| <= |Chosen(times, pick)|
    ensures Chosen(times[..m], pick[..m]) == Chosen(times, pick)[..|Chosen(times[..m], pick[..m])|]
  {
    if m == |times| {
      assert times[..m] == times && pick[..m] == pick;
    } else {
      var n := |times| - 1;
      ChosenPrefix(times[..n], pick[..n], m);
      assert times[..n][..m] == times[..m] && pick[..n][..m] == pick[..m];
    }
  }

  lemma FeasiblePrefix(stamps: seq<int>, n: nat, limit: int, window: int)
    requires Feasible(stamps, limit, window) && n <= |stamps|
    ensures Feasible(stamps[..n], limit, window)
  {
    forall a, b | b <= a + window ensures CountIn(stamps[..n], a, b) <= limit {
      assert stamps == stamps[..n] + stamps[n..];
      CountInConcat(stamps[..n], stamps[n..], a, b);
    }
  }

  /** A feasible selection that picks the last arrival had room for it. */
  lemma PickedWindow(times: seq<int>, pick: seq<bool>, limit: int, window: int)
    requires Ascending(times) && |pick| == |times| > 0 && pick[|times| - 1]
    requires Feasible(Chosen(times, pick), limit, window) && window > 0
    ensures var n := |times| - 1;
            CountAfter(Chosen(times[..n], pick[..n]), times[n] - window) < limit
  {
    var n := |times| - 1;
    var c := times[n] - window;
    ChosenAtMost(times, pick, times[n]);
    CountInAtMostAfter(Chosen(times, pick), c, times[n]);
    assert CountIn(Chosen(times, pick), c, times[n]) <= limit;
    assert Chosen(times, pick)[..|Chosen(times, pick)| - 1] == Chosen(times[..n], pick[..n]);
  }

  /** Fewer picks in the window, and no more before it, are fewer picks. */
  lemma FewerSoFar(times: seq<int>, pick: seq<bool>, m: nat, c: int, limit: int, window: int)
    requires |pick| == |times| && m <= |times|
    requires forall i :: 0 <= i < m ==> times[i] <= c
    requires forall i :: m <= i < |times| ==> times[i] > c
    requires |Chosen(times[..m], pick[..m])| <= |GreedyLog(times[..m], limit, window)|
    requires CountAfter(Chosen(times, pick), c) < CountAfter(GreedyLog(times, limit, window), c)
    ensures |Chosen(times, pick)| < |GreedyLog(times, limit, window)|
  {
    ChosenSplit(times, pick, m, c);
    ChosenSplit(times, Greedy(times, limit, window), m, c);
    GreedyPrefix(times, limit, window, m);
  }

  /** When greedy turns an arrival away, its window already holds `limit` of its own picks, and
      any other feasible selection that takes the arrival has fewer there. */
  lemma DeniedArrival(times: seq<int>, pick: seq<bool>, m: nat, limit: int, window: int)
    requires Ascending(times) && |pick| == |times| > 0 && pick[|times| - 1] && window > 0
    requires Feasible(Chosen(times, pick), limit, window)
    requires var n := |times| - 1; CountAfter(GreedyLog(times[..n], limit, window), times[n] - window) >= limit
    requires m < |times|
    requires forall i :: 0 <= i < m ==> times[i] <= times[|times| - 1] - window
    requires forall i :: m <= i < |times| ==> times[i] > times[|times| - 1] - window
    requires |Chosen(times[..m], pick[..m])| <= |GreedyLog(times[..m], limit, window)|
    ensures var n := |times| - 1;
            |Chosen(times[..n], pick[..n])| < |GreedyLog(times[..n], limit, window)|
  {
    var n := |times| - 1;
    var init, ipick, c := times[..n], pick[..n], times[n] - window;
    assert init[..m] == times[..m] && ipick[..m] == pick[..m];
    PickedWindow(times, pick, limit, window);
    FewerSoFar(init, ipick, m, c, limit, window);
  }

  lemma ChosenPrefixFeasible(times: seq<int>, pick: seq<bool>, m: nat, limit: int, window: int)
    requires |pick| == |times| && m <= |times| && Feasible(Chosen(times, pick), limit, window)
    ensures Feasible(Chosen(times[..m], pick[..m]), limit, window)
  {
    ChosenPrefix(times, pick, m);
    FeasiblePrefix(Chosen(times, pick), |Chosen(times[..m], pick[..m])|, limit, window);
  }

  /** Greedy admission is optimal: on every ascending arrival sequence, no selection that respects
      the windows picks more arrivals. */
  lemma {:induction false} GreedyBeats(times: seq<int>, pick: seq<bool>, limit: int, window: int)
    requires Ascending(times) && |pick| == |times| && window > 0
    requires Feasible(Chosen(times, pick), limit, window)
    ensures |Chosen(times, pick)| <= |GreedyLog(times, limit, window)|
    decreases |times|, 2
  {
    if times != [] {
      var n := |times| - 1;
      GreedyBeatsPrefix(times, pick, n, limit, window);
      GreedyLogStep(times, limit, window);
      if pick[n] && CountAfter(GreedyLog(times[..n], limit, window), times[n] - window) >= limit {
        GreedyBeatsDenied(times, pick, limit, window);
      }
    }
  }

  lemma {:induction false} GreedyBeatsPrefix(times: seq<int>, pick: seq<bool>, m: nat, limit: int, window: int)
    requires Ascending(times) && |pick| == |times| && window > 0 && m < |times|
    requires Feasible(Chosen(times, pick), limit, window)
    ensures |Chosen(times[..m], pick[..m])| <= |GreedyLog(times[..m], limit, window)|
    decreases |times|, 0
  {
    ChosenPrefixFeasible(times, pick, m, limit, window);
    GreedyBeats(times[..m], pick[..m], limit, window);
  }

  lemma {:induction false} GreedyBeatsDenied(times: seq<int>, pick: seq<bool>, limit: int, window: int)
    requires Ascending(times) && |pick| == |times| > 0 && pick[|times| - 1] && window > 0
    requires Feasible(Chosen(times, pick), limit, window)
    requires var n := |times| - 1; CountAfter(GreedyLog(times[..n], limit, window), times[n] - window) >= limit
    ensures var n := |times| - 1;
            |Chosen(times[..n], pick[..n])| < |GreedyLog(times[..n], limit, window)|
    decreases |times|, 1
  {
    var m := |times| - |Prune(times, times[|times| - 1] - window)|;
    FirstInWindow(times, times[|times| - 1] - window);
    GreedyBeatsPrefix(times, pick, m, limit, window);
    DeniedArrival(times, pick, m, limit, window);
  }

  lemma FirstInWindow(times: seq<int>, c: int)
    requires Ascending(times) && times != [] && times[|times| - 1] > c
    ensures var m := |times| - |Prune(times, c)|;
            && m < |times|
            && (forall i :: 0 <= i < m ==> times[i] <= c)
            && (forall i :: m <= i < |times| ==> times[i] > c)
  {
    PruneShape(times, c);
    var r := Prune(times, c);
    var m := |times| - |r|;
    if m < |times| {
      assert r[0] == times[m];
      forall i | m <= i < |times| ensures times[i] > c {
        assert times[m] <= times[i];
      }
    }
  }

  /** In every prefix of every run, no way of admitting the same arrivals that respects the windows
      would have admitted more requests than the limiter did. */
  lemma AllowIsOptimal(ops: seq<M.Op>, key: string, p: Policy, minTTL: int, pick: seq<bool>, n: nat)
    requires F.InOrder(ops) && FixedPolicy(ops, key, p)
    requires |pick| == |Arrivals(ops, key)|
    requires Feasible(Chosen(Arrivals(ops, key), pick), p.limit, p.window)
    requires n <= |ops|
    ensures |Arrivals(ops[..n], key)| <= |pick|
    ensures |Chosen(Arrivals(ops[..n], key), pick[..|Arrivals(ops[..n], key)|])| <= |Accepted(ops[..n], key, minTTL)|
  {
    ArrivalsPrefix(ops, key, n);
    var times, m := Arrivals(ops, key), |Arrivals(ops[..n], key)|;
    F.InOrderPrefix(ops, n);
    ArrivalsInOrder(ops[..n], key);
    ChosenPrefixFeasible(times, pick, m, p.limit, p.window);
    GreedyBeats(times[..m], pick[..m], p.limit, p.window);
    AcceptedIsGreedy(ops[..n], key, p, minTTL);
  }

  lemma {:induction false} ArrivalsPrefix(ops: seq<M.Op>, key: string, n: nat)
    requires n <= |ops|
    ensures |Arrivals(ops[..n], key)| <= |Arrivals(ops, key)|
    ensures Arrivals(ops[..n], key) == Arrivals(ops, key)[..|Arrivals(ops[..n], key)|]
  {
    if n == |ops| {
      assert ops[..n] == ops;
    } else {
      var m := |ops| - 1;
      ArrivalsPrefix(ops[..m], key, n);
      assert ops[..m][..n] == ops[..n];
    }
  }

  /** Raising the limit never admits fewer of the same requests. */
  lemma RaisingTheLimit(ops: seq<M.Op>, ops': seq<M.Op>, key: string, p: Policy, p': Policy, minTTL: int)
    requires F.InOrder(ops) && FixedPolicy(ops, key, p)
    requires F.InOrder(ops') && FixedPolicy(ops', key, p')
    requires Arrivals(ops, key) == Arrivals(ops', key)
    requires p.limit <= p'.limit && p'.window <= p.window
    ensures |Accepted(ops, key, minTTL)| <= |Accepted(ops', key, minTTL)|
  {
    var times := Arrivals(ops, key);
    AcceptedIsGreedy(ops, key, p, minTTL);
    AcceptedIsGreedy(ops', key, p', minTTL);
    ArrivalsInOrder(ops, key);
    GreedyFeasible(times, p.limit, p.window);
    GreedyBeats(times, Greedy(times, p.limit, p.window), p'.limit, p'.window);
  }

  /** A window ending at `t` that holds exactly `limit` stamps, the first of them `first`. */
  ghost predicate Full(log: seq<int>, t: int, limit: int, window: int, first: int) {
    && Ascending(log)
    && CountAfter(log, t - window) == limit >= 1
    && first == FirstAfter(log, t - window) <= t
  }

  /** A full window stays full exactly until its first stamp leaves it. */
  lemma FullUntil(log: seq<int>, t: int, t': int, limit: int, window: int, first: int)
    requires Full(log, t, limit, window, first) && t <= t'
    ensures CountAfter(log, t' - window) >= limit <==> t' < first + window
  {
    var n := |log| - limit;
    F.WindowStart(log, t - window, |log| - CountAfter(log, t - window));
    if t' < first + window {
      F.SuffixCount(log, n, t' - window);
    } else {
      LeavesFirst(log, n, t' - window);
    }
  }

  lemma LeavesFirst(log: seq<int>, n: nat, cutoff: int)
    requires Ascending(log) && n < |log| && log[n] <= cutoff
    ensures CountAfter(log, cutoff) < |log| - n
  {
    assert log == log[..n + 1] + log[n + 1..];
    CountAfterConcat(log[..n + 1], log[n + 1..], cutoff);
    CountAfterNone(log[..n + 1], cutoff);
  }

  /** A denial means the window is full. */
  lemma DeniedMeansFull(h: F.History, op: M.Op, p: Policy)
    requires op.AllowOp? && op.policy.Normalize() == p && p.Enforceable()
    requires var log := F.Admitted(h, op.key);
             Ascending(log) && AllAtMost(log, op.now) && Feasible(log, p.limit, p.window)
    requires !F.Step(h, op, Memory).1.decision.allowed
    ensures var log, d := F.Admitted(h, op.key), F.Step(h, op, Memory).1.decision;
            && Full(log, op.now, p.limit, p.window, d.resetAt - p.window)
            && d.retryAfter == NonNegative(d.resetAt - op.now)
            && F.Admitted(F.Step(h, op, Memory).0, op.key) == log
  {
    var log := F.Admitted(h, op.key);
    CountInAtMostAfter(log, op.now - p.window, op.now);
    assert CountIn(log, op.now - p.window, op.now) <= p.limit;
  }

  lemma {:induction false} AcceptedAscending(ops: seq<M.Op>, key: string, minTTL: int)
    requires F.InOrder(ops)
    ensures Ascending(Accepted(ops, key, minTTL))
    ensures ops != [] ==> AllAtMost(Accepted(ops, key, minTTL), ops[|ops| - 1].now)
  {
    if ops != [] {
      var n := |ops| - 1;
      F.InOrderPrefix(ops, n);
      AcceptedAscending(ops[..n], key, minTTL);
      if n > 0 { assert ops[..n][n - 1].now <= ops[n].now; }
    }
  }

  lemma LogFacts(ops: seq<M.Op>, key: string, p: Policy, minTTL: int)
    requires F.InOrder(ops) && FixedPolicy(ops, key, p)
    ensures var log := F.Admitted(F.Run(ops, Memory), key);
            && Ascending(log) && Feasible(log, p.limit, p.window)
            && (ops != [] ==> AllAtMost(log, ops[|ops| - 1].now))
  {
    AcceptedIsGreedy(ops, key, p, minTTL);
    NoWindowOverflows(ops, key, p, minTTL);
    AcceptedAscending(ops, key, minTTL);
  }

  /** No request of the key came at or after `until`. */
  ghost predicate AllBefore(more: seq<M.Op>, key: string, until: int) {
    forall i :: 0 <= i < |more| && more[i].AllowOp? && more[i].key == key ==> more[i].now < until
  }

  /** Playing calls on top of a history. */
  function RunFrom(h: F.History, more: seq<M.Op>): F.History {
    if more == [] then h else F.Step(RunFrom(h, more[..|more| - 1]), more[|more| - 1], Memory).0
  }

  lemma {:induction false} RunFromRun(ops: seq<M.Op>, more: seq<M.Op>)
    ensures F.Run(ops + more, Memory) == RunFrom(F.Run(ops, Memory), more)
  {
    if more == [] {
      assert ops + more == ops;
    } else {
      assert (ops + more)[..|ops + more| - 1] == ops + more[..|more| - 1];
      RunFromRun(ops, more[..|more| - 1]);
    }
  }

  lemma FrozenStep(h: F.History, op: M.Op, key: string, p: Policy, t: int, first: int, log: seq<int>)
    requires log == F.Admitted(h, key) && Full(log, t, p.limit, p.window, first) && p.Enforceable() && t <= op.now
    requires op.AllowOp? && op.key == key ==> op.policy.Normalize() == p && op.now < first + p.window
    ensures F.Admitted(F.Step(h, op, Memory).0, key) == log
  {
    if op.AllowOp? && op.key == key {
      FullUntil(log, t, op.now, p.limit, p.window, first);
      HistoryStep(h, op, key, p);
    } else {
      OtherHistoryStep(h, op, key);
    }
  }

  /** Until the reset time nothing is admitted, whatever else happens. */
  lemma {:induction false} FrozenUntilReset(h: F.History, more: seq<M.Op>, key: string, p: Policy, t: int, first: int)
    requires FixedPolicy(more, key, p)
    requires Full(F.Admitted(h, key), t, p.limit, p.window, first)
    requires forall i :: 0 <= i < |more| ==> t <= more[i].now
    requires AllBefore(more, key, first + p.window)
    ensures F.Admitted(RunFrom(h, more), key) == F.Admitted(h, key)
  {
    if more != [] {
      var n := |more| - 1;
      FrozenUntilReset(h, more[..n], key, p, t, first);
      FrozenStep(RunFrom(h, more[..n]), more[n], key, p, t, first, F.Admitted(h, key));
    }
  }

  /** What a request is told by a history that is full until `first + window`. */
  lemma FullDecides(h: F.History, op: M.Op, key: string, p: Policy, t: int, first: int)
    requires op.AllowOp? && op.key == key && p.Enforceable() && op.policy.Normalize() == p && t <= op.now
    requires Full(F.Admitted(h, key), t, p.limit, p.window, first)
    ensures F.Step(h, op, Memory).1.decision.allowed <==> op.now >= first + p.window
  {
    FullUntil(F.Admitted(h, key), t, op.now, p.limit, p.window, first);
    HistoryStep(h, op, key, p);
  }

  /** What every later request of the key is told after a denial that announced `first + window`. */
  lemma AfterDenial(h: F.History, more: seq<M.Op>, key: string, p: Policy, t: int, first: int)
    requires FixedPolicy(more, key, p)
    requires Full(F.Admitted(h, key), t, p.limit, p.window, first)
    requires forall i :: 0 <= i < |more| ==> t <= more[i].now
    requires more != [] && more[|more| - 1].AllowOp? && more[|more| - 1].key == key
    requires AllBefore(more[..|more| - 1], key, first + p.window)
    ensures F.Step(RunFrom(h, more[..|more| - 1]), more[|more| - 1], Memory).1.decision.allowed
            <==> more[|more| - 1].now >= first + p.window
  {
    var n := |more| - 1;
    FrozenUntilReset(h, more[..n], key, p, t, first);
    FullDecides(RunFrom(h, more[..n]), more[n], key, p, t, first);
  }

  lemma LaterReplyFromHistory(ops: seq<M.Op>, more: seq<M.Op>, minTTL: int)
    requires F.InOrder(ops + more) && more != []
    ensures M.LastReply(ops + more, minTTL) ==
            F.Step(RunFrom(F.Run(ops, Memory), more[..|more| - 1]), more[|more| - 1], Memory).1
  {
    var all := ops + more;
    LastReplyFromHistory(all, minTTL);
    assert all[..|all| - 1] == ops + more[..|more| - 1];
    RunFromRun(ops, more[..|more| - 1]);
  }

  lemma FixedPolicyParts(ops: seq<M.Op>, more: seq<M.Op>, key: string, p: Policy)
    requires FixedPolicy(ops + more, key, p)
    ensures FixedPolicy(ops, key, p) && FixedPolicy(more, key, p)
  {
    forall i | 0 <= i < |ops| ensures ops[i] == (ops + more)[i] { }
    forall i | 0 <= i < |more| ensures more[i] == (ops + more)[|ops| + i] { }
  }

  lemma InOrderParts(ops: seq<M.Op>, more: seq<M.Op>)
    requires F.InOrder(ops + more) && ops != []
    ensures F.InOrder(ops) && F.InOrder(ops[..|ops| - 1])
    ensures forall i :: 0 <= i < |more| ==> ops[|ops| - 1].now <= more[i].now
    ensures |ops| > 1 ==> ops[|ops| - 2].now <= ops[|ops| - 1].now
  {
    var all := ops + more;
    assert all[..|ops|] == ops && all[..|ops| - 1] == ops[..|ops| - 1];
    F.InOrderPrefix(all, |ops|);
    F.InOrderPrefix(all, |ops| - 1);
    forall i | 0 <= i < |more| ensures ops[|ops| - 1].now <= more[i].now {
      assert all[|ops| - 1] == ops[|ops| - 1] && all[|ops| + i] == more[i];
    }
  }

  lemma DenialInRun(ops: seq<M.Op>, key: string, p: Policy, minTTL: int, op: M.Op, h: F.History, h': F.History,
                    d: Decision)
    requires F.InOrder(ops) && FixedPolicy(ops, key, p)
    requires ops != [] && F.InOrder(ops[..|ops| - 1]) && op == ops[|ops| - 1] && op.AllowOp? && op.key == key
    requires |ops| > 1 ==> ops[|ops| - 2].now <= op.now
    requires h == F.Run(ops[..|ops| - 1], Memory) && F.Step(h, op, Memory) == (h', M.Decided(d)) && !d.allowed
    ensures Full(F.Admitted(h', key), op.now, p.limit, p.window, d.resetAt - p.window)
    ensures d.retryAfter == NonNegative(d.resetAt - op.now)
  {
    LogFacts(ops[..|ops| - 1], key, p, minTTL);
    DeniedMeansFull(h, op, p);
  }

  lemma WaitIsPositive(log: seq<int>, now: int, p: Policy, d: Decision)
    requires Full(log, now, p.limit, p.window, d.resetAt - p.window) && d.retryAfter == NonNegative(d.resetAt - now)
    ensures 0 < d.retryAfter <= p.window && d.resetAt == now + d.retryAfter
  {
  }

  /** The same, of the replies of the full history. */
  lemma ResetInHistory(ops: seq<M.Op>, more: seq<M.Op>, key: string, p: Policy, minTTL: int, op: M.Op, h: F.History,
                       h': F.History, d: Decision)
    requires F.InOrder(ops + more) && FixedPolicy(ops, key, p) && FixedPolicy(more, key, p)
    requires ops != [] && op == ops[|ops| - 1] && op.AllowOp? && op.key == key
    requires h == F.Run(ops[..|ops| - 1], Memory) && F.Step(h, op, Memory) == (h', M.Decided(d)) && !d.allowed
    requires more != [] && more[|more| - 1].AllowOp? && more[|more| - 1].key == key
    requires AllBefore(more[..|more| - 1], key, d.resetAt)
    ensures 0 < d.retryAfter <= p.window && d.resetAt == op.now + d.retryAfter
    ensures F.Step(RunFrom(h', more[..|more| - 1]), more[|more| - 1], Memory).1.decision.allowed
            <==> more[|more| - 1].now >= d.resetAt
  {
    InOrderParts(ops, more);
    DenialInRun(ops, key, p, minTTL, op, h, h', d);
    WaitIsPositive(F.Admitted(h', key), op.now, p, d);
    AfterDenial(h', more, key, p, op.now, d.resetAt - p.window);
  }

  /** Reset times are exact. After a denial, the wait it announces is positive and at most one
      window; every later request of the key before the reset time is denied, and the first one at
      or after it is admitted, whatever the janitor, Peek and other keys do in between. */
  lemma ResetTimeIsExact(ops: seq<M.Op>, more: seq<M.Op>, key: string, p: Policy, minTTL: int)
    requires F.InOrder(ops + more) && FixedPolicy(ops + more, key, p)
    requires ops != [] && ops[|ops| - 1].AllowOp? && ops[|ops| - 1].key == key
    requires !M.LastReply(ops, minTTL).decision.allowed
    requires more != [] && more[|more| - 1].AllowOp? && more[|more| - 1].key == key
    requires AllBefore(more[..|more| - 1], key, M.LastReply(ops, minTTL).decision.resetAt)
    ensures var d := M.LastReply(ops, minTTL).decision;
            && 0 < d.retryAfter <= p.window
            && d.resetAt == ops[|ops| - 1].now + d.retryAfter
            && (M.LastReply(ops + more, minTTL).decision.allowed <==> more[|more| - 1].now >= d.resetAt)
  {
    FixedPolicyParts(ops, more, key, p);
    InOrderParts(ops, more);
    LastReplyFromHistory(ops, minTTL);
    LaterReplyFromHistory(ops, more, minTTL);
    ResetInHistory(ops, more, key, p, minTTL, ops[|ops| - 1], F.Run(ops[..|ops| - 1], Memory), F.Run(ops, Memory),
                   M.LastReply(ops, minTTL).decision);
  }

  // ---------------------------------------------------------------- bounded space

  /** The largest limit ever enforced on a key. */
  function LargestLimit(ops: seq<M.Op>, key: string): (limit: nat)
    ensures limit <= MAX_LIMIT
  {
    if ops == [] then 0
    else
      var op, earlier := ops[|ops| - 1], LargestLimit(ops[..|ops| - 1], key);
      if op.AllowOp? && op.key == key && op.policy.Normalize().limit > earlier then op.policy.Normalize().limit
      else earlier
  }

  lemma DecideStaysBounded(e: M.Entry, now: int, p: Policy, bound: nat)
    requires p.Enforceable() && |e.hits| <= bound
    ensures |M.Decide(e, now, p).0.hits| <= if p.limit > bound then p.limit else bound
  {
  }

  /** In every run, whatever the clock does, a key's log never outgrows the largest limit it was
      ever held to, hence never a million hits. */
  lemma {:induction false} LogsStayBounded(ops: seq<M.Op>, minTTL: int, key: string)
    requires key in M.Run(ops, minTTL)
    ensures |M.Run(ops, minTTL)[key].hits| <= LargestLimit(ops, key) <= MAX_LIMIT
  {
    if ops != [] {
      var n := |ops| - 1;
      var t, op := M.Run(ops[..n], minTTL), ops[n];
      if key in t { LogsStayBounded(ops[..n], minTTL, key); }
      if op.AllowOp? && op.key == key {
        DecideStaysBounded(M.Acquire(t, key).(lastSeen := op.now), op.now, op.policy.Normalize(),
                           LargestLimit(ops[..n], key));
      }
    }
  }
}
