/** What the limiters tell a client, held against nothing but the instants at which they themselves
    admitted the key before: internal/limiter/limiter.go, memory.go, redis.go. */
module Replies {
  import opened Policies
  import opened SlidingWindow
  import M = MemoryModel
  import F = FullHistory
  import G = Guarantees
  import B = Bisimulation

  /** The first stamp of a log later than `cutoff`. */
  ghost predicate FirstLater(log: seq<int>, cutoff: int, t: int) {
    exists m :: 0 <= m < |log| && log[m] == t > cutoff && forall i :: 0 <= i < m ==> log[i] <= cutoff
  }

  /** The right answer to a request at `now` of a key admitted at the instants `log` before. It is
      admitted when the window has room; `used` counts it if it was; `remaining` is what is left of the
      limit; and the reset time is when the oldest admission in the window leaves it. */
  ghost predicate Answers(d: Decision, log: seq<int>, now: int, p: Policy, b: Backend) {
    var found := CountAfter(log, now - p.window);
    && d.allowed == (found < p.limit)
    && d.used == found + (if d.allowed then 1 else 0)
    && d.remaining == (if d.allowed then p.limit - d.used else 0)
    && d.limit == p.limit && d.window == p.window && d.backend == b
    && FirstLater(if d.allowed then log + [now] else log, now - p.window, d.resetAt - p.window)
    && d.retryAfter == d.resetAt - now && 0 < d.retryAfter <= p.window
  }

  lemma NoneLater(log: seq<int>, cutoff: int)
    requires CountAfter(log, cutoff) == 0
    ensures AllAtMost(log, cutoff)
  {
    forall i | 0 <= i < |log| ensures log[i] <= cutoff {
      if log[i] > cutoff { F.CountAfterSome(log, i, cutoff); }
    }
  }

  lemma OldestIsFirst(log: seq<int>, now: int, cutoff: int, admitted: bool, t: int)
    requires Ascending(log) && AllAtMost(log, now) && cutoff < now && t == F.Oldest(log, cutoff, now)
    requires !admitted ==> CountAfter(log, cutoff) > 0
    ensures FirstLater(if admitted then log + [now] else log, cutoff, t) && t <= now
  {
    var all := if admitted then log + [now] else log;
    if CountAfter(log, cutoff) > 0 {
      var n := |log| - CountAfter(log, cutoff);
      F.WindowStart(log, cutoff, n);
      assert all[n] == log[n] == t;
    } else {
      NoneLater(log, cutoff);
      assert all[|log|] == now;
    }
  }

  lemma VerdictAnswers(d: Decision, log: seq<int>, now: int, p: Policy, b: Backend, found: nat, oldest: int)
    requires d == F.Verdict(b, found, oldest, now, p) && found == CountAfter(log, now - p.window) && p.Enforceable()
    requires FirstLater(if found < p.limit then log + [now] else log, now - p.window, oldest) && oldest <= now
    ensures Answers(d, log, now, p, b)
  {
  }

  lemma HistoryAnswers(hist: seq<int>, now: int, p: Policy, b: Backend, d: Decision)
    requires Ascending(hist) && AllAtMost(hist, now) && p.Enforceable() && d == F.Decide(b, hist, now, p).1
    ensures Answers(d, hist, now, p, b)
  {
    var cutoff := now - p.window;
    var found, oldest := CountAfter(hist, cutoff), F.Oldest(hist, cutoff, now);
    OldestIsFirst(hist, now, cutoff, found < p.limit, oldest);
    VerdictAnswers(d, hist, now, p, b, found, oldest);
  }

  /** The full history is what the limiter itself has admitted. */
  lemma {:induction false} AcceptedIsHistory(ops: seq<M.Op>, key: string, minTTL: int)
    requires F.InOrder(ops)
    ensures F.Admitted(F.Run(ops, Memory), key) == G.Accepted(ops, key, minTTL)
  {
    if ops != [] {
      var n := |ops| - 1;
      var op, rest := ops[n], ops[..n];
      F.InOrderPrefix(ops, n);
      AcceptedIsHistory(rest, key, minTTL);
      if op.AllowOp? && op.key == key {
        G.LastReplyFromHistory(ops, minTTL);
        G.HistoryStep(F.Run(rest, Memory), op, key, op.policy.Normalize());
        G.AcceptedUnfolds(ops, key, minTTL, F.Step(F.Run(rest, Memory), op, Memory).1);
      } else {
        G.NotForKey(ops, key, minTTL);
      }
    }
  }

  /** The right reply to the last call of a run, given the key's own admissions before it. */
  ghost predicate RightReply(op: M.Op, r: M.Reply, log: seq<int>, b: Backend) {
    match op
    case AllowOp(now, _, policy) => r.Decided? && Answers(r.decision, log, now, policy.Normalize(), b)
    case PeekOp(now, _, policy) => r == M.Used(CountAfter(log, now - policy.Normalize().window))
    case CleanupOp(_) => r == M.Done
  }

  lemma StepAnswers(h: F.History, op: M.Op, log: seq<int>)
    requires !op.CleanupOp? && log == F.Admitted(h, op.key) && Ascending(log) && AllAtMost(log, op.now)
    ensures RightReply(op, F.Step(h, op, Memory).1, log, Memory)
  {
    if op.AllowOp? {
      HistoryAnswers(log, op.now, op.policy.Normalize(), Memory, F.Step(h, op, Memory).1.decision);
    }
  }

  /** Every reply of the in-memory limiter is right, in every run with a nondecreasing clock and windows
      that never grow on a key, whatever the limits. */
  lemma ReplyIsRight(ops: seq<M.Op>, minTTL: int)
    requires F.InOrder(ops) && ops != [] && !ops[|ops| - 1].CleanupOp?
    ensures var n := |ops| - 1;
            RightReply(ops[n], M.LastReply(ops, minTTL), G.Accepted(ops[..n], ops[n].key, minTTL), Memory)
  {
    var n := |ops| - 1;
    var op, rest := ops[n], ops[..n];
    F.InOrderPrefix(ops, n);
    G.LastReplyFromHistory(ops, minTTL);
    AcceptedIsHistory(rest, op.key, minTTL);
    G.AcceptedAscending(rest, op.key, minTTL);
    if n > 0 { assert rest[n - 1].now <= op.now; }
    StepAnswers(F.Run(rest, Memory), op, G.Accepted(rest, op.key, minTTL));
  }

  // ---------------------------------------------------------------- what `remaining` promises

  /** Requests of the key under the same policy, all at one instant, with whatever else is going on. */
  ghost predicate AtOnce(more: seq<M.Op>, key: string, p: Policy, now: int) {
    forall i :: 0 <= i < |more| ==>
      more[i].now == now && (more[i].AllowOp? && more[i].key == key ==> more[i].policy.Normalize() == p)
  }

  /** How many are in the window after `asked` requests, when `before` were. */
  function Filled(before: nat, asked: nat, limit: int): nat {
    if before >= limit || before + asked <= limit then (if before >= limit then before else before + asked) else limit
  }

  lemma PlaceCounted(log: seq<int>, log': seq<int>, now: int, p: Policy, before: nat, asked: nat)
    requires p.Enforceable() && log' == if CountAfter(log, now - p.window) < p.limit then log + [now] else log
    requires CountAfter(log, now - p.window) == Filled(before, asked, p.limit)
    ensures CountAfter(log', now - p.window) == Filled(before, asked + 1, p.limit)
  {
    CountAfterSnoc(log, now, now - p.window);
  }

  /** A key's history after some more calls. */
  ghost predicate LogAfter(h: F.History, more: seq<M.Op>, key: string, log: seq<int>) {
    F.Admitted(G.RunFrom(h, more), key) == log
  }

  lemma LogStep(h: F.History, more: seq<M.Op>, rest: seq<M.Op>, op: M.Op, key: string, p: Policy, log: seq<int>,
                log': seq<int>)
    requires more != [] && rest == more[..|more| - 1] && op == more[|more| - 1] && p.Enforceable()
    requires LogAfter(h, rest, key, log) && (op.AllowOp? && op.key == key ==> op.policy.Normalize() == p)
    requires log' == if op.AllowOp? && op.key == key && CountAfter(log, op.now - p.window) < p.limit then log + [op.now]
                     else log
    ensures LogAfter(h, more, key, log')
  {
    var h' := G.RunFrom(h, rest);
    if op.AllowOp? && op.key == key {
      G.HistoryStep(h', op, key, p);
    } else {
      G.OtherHistoryStep(h', op, key);
    }
  }

  /** Each request takes one of the places left. */
  lemma {:induction false} PlacesTaken(h: F.History, more: seq<M.Op>, key: string, p: Policy, now: int, before: nat)
    returns (log: seq<int>)
    requires AtOnce(more, key, p, now) && p.Enforceable() && before == CountAfter(F.Admitted(h, key), now - p.window)
    ensures LogAfter(h, more, key, log)
    ensures CountAfter(log, now - p.window) == Filled(before, |G.Arrivals(more, key)|, p.limit)
    decreases |more|
  {
    if more == [] {
      log := F.Admitted(h, key);
    } else {
      var n := |more| - 1;
      var op := more[n];
      var earlier := PlacesTaken(h, more[..n], key, p, now, before);
      var counts := op.AllowOp? && op.key == key;
      log := if counts && CountAfter(earlier, now - p.window) < p.limit then earlier + [now] else earlier;
      LogStep(h, more, more[..n], op, key, p, earlier, log);
      if counts { PlaceCounted(earlier, log, now, p, before, |G.Arrivals(more[..n], key)|); }
    }
  }

  /** What an answer leaves in the window. */
  lemma PlacesLeft(d: Decision, log: seq<int>, log': seq<int>, now: int, p: Policy, b: Backend)
    requires Answers(d, log, now, p, b) && p.Enforceable() && log' == if d.allowed then log + [now] else log
    ensures d.remaining == NonNegative(p.limit - CountAfter(log', now - p.window))
  {
    var cutoff := now - p.window;
    CountAfterSnoc(log, now, cutoff);
    Remainder(d, CountAfter(log, cutoff), CountAfter(log', cutoff), p.limit);
  }

  lemma Remainder(d: Decision, found: nat, found': nat, limit: int)
    requires d.allowed == (found < limit) && d.used == found + (if d.allowed then 1 else 0)
    requires d.remaining == (if d.allowed then limit - d.used else 0)
    requires found' == found + if d.allowed then 1 else 0
    ensures d.remaining == NonNegative(limit - found')
  {
  }

  lemma AllowedWithRoom(h: F.History, more: seq<M.Op>, op: M.Op, key: string, p: Policy, log: seq<int>, r: M.Reply)
    requires op.AllowOp? && op.key == key && op.policy.Normalize() == p && p.Enforceable()
    requires LogAfter(h, more, key, log) && r == F.Step(G.RunFrom(h, more), op, Memory).1
    ensures r.Decided? && (r.decision.allowed <==> CountAfter(log, op.now - p.window) < p.limit)
  {
    G.HistoryStep(G.RunFrom(h, more), op, key, p);
  }

  /** The answer to one more request once the others have taken their places. */
  lemma NextPlace(h: F.History, more: seq<M.Op>, rest: seq<M.Op>, op: M.Op, key: string, p: Policy, now: int,
                  before: nat, r: M.Reply)
    requires AtOnce(rest, key, p, now) && p.Enforceable() && op.AllowOp? && op.key == key
    requires more != [] && rest == more[..|more| - 1] && op == more[|more| - 1]
    requires op.now == now && op.policy.Normalize() == p
    requires before == CountAfter(F.Admitted(h, key), now - p.window)
    requires r == F.Step(G.RunFrom(h, rest), op, Memory).1
    ensures r.Decided? && (r.decision.allowed <==> |G.Arrivals(rest, key)| < NonNegative(p.limit - before))
  {
    var log := PlacesTaken(h, rest, key, p, now, before);
    AllowedWithRoom(h, rest, op, key, p, log, r);
  }

  lemma LastAnswer(ops: seq<M.Op>, key: string, p: Policy, minTTL: int, op: M.Op, d: Decision, earlier: seq<int>)
    requires F.InOrder(ops) && ops != [] && op == ops[|ops| - 1] && op.AllowOp? && op.key == key
    requires op.policy.Normalize() == p && M.LastReply(ops, minTTL) == M.Decided(d)
    requires earlier == G.Accepted(ops[..|ops| - 1], key, minTTL)
    ensures Answers(d, earlier, op.now, p, Memory)
  {
    ReplyIsRight(ops, minTTL);
  }

  lemma LastAccepted(ops: seq<M.Op>, key: string, minTTL: int, op: M.Op, d: Decision, earlier: seq<int>,
                     log: seq<int>)
    requires ops != [] && op == ops[|ops| - 1] && op.AllowOp? && op.key == key
    requires M.LastReply(ops, minTTL) == M.Decided(d) && earlier == G.Accepted(ops[..|ops| - 1], key, minTTL)
    requires log == G.Accepted(ops, key, minTTL)
    ensures log == if d.allowed then earlier + [op.now] else earlier
  {
    G.AcceptedUnfolds(ops, key, minTTL, M.Decided(d));
  }

  /** What the reply to the last call of a run leaves. */
  lemma RunPlacesLeft(ops: seq<M.Op>, key: string, p: Policy, minTTL: int, op: M.Op, d: Decision, log: seq<int>)
    requires F.InOrder(ops) && ops != [] && op == ops[|ops| - 1] && op.AllowOp? && op.key == key
    requires op.policy.Normalize() == p && M.LastReply(ops, minTTL) == M.Decided(d)
    requires log == G.Accepted(ops, key, minTTL)
    ensures d.remaining == NonNegative(p.limit - CountAfter(log, op.now - p.window))
  {
    assert d.remaining == NonNegative(p.limit - CountAfter(log, op.now - p.window)) by {
      var earlier := G.Accepted(ops[..|ops| - 1], key, minTTL);
      LastAccepted(ops, key, minTTL, op, d, earlier, log);
      LastAnswer(ops, key, p, minTTL, op, d, earlier);
      PlacesLeft(d, earlier, log, op.now, p, Memory);
    }
  }

  lemma LastDecides(ops: seq<M.Op>, minTTL: int)
    requires ops != [] && ops[|ops| - 1].AllowOp?
    ensures M.LastReply(ops, minTTL).Decided?
  {
  }

  /** The places left after a run, as the full history has them. */
  ghost predicate PlacesAfter(ops: seq<M.Op>, key: string, p: Policy, now: int, left: nat) {
    left == NonNegative(p.limit - CountAfter(F.Admitted(F.Run(ops, Memory), key), now - p.window))
  }

  lemma LaterReply(ops: seq<M.Op>, more: seq<M.Op>, rest: seq<M.Op>, op: M.Op, minTTL: int, h: F.History, r: M.Reply)
    requires F.InOrder(ops + more) && more != [] && rest == more[..|more| - 1] && op == more[|more| - 1]
    requires h == F.Run(ops, Memory) && r == M.LastReply(ops + more, minTTL)
    ensures r == F.Step(G.RunFrom(h, rest), op, Memory).1
  {
    G.LaterReplyFromHistory(ops, more, minTTL);
  }

  lemma Before(ops: seq<M.Op>, key: string, p: Policy, now: int, left: nat, h: F.History) returns (before: nat)
    requires PlacesAfter(ops, key, p, now, left) && h == F.Run(ops, Memory)
    ensures before == CountAfter(F.Admitted(h, key), now - p.window) && left == NonNegative(p.limit - before)
  {
    before := CountAfter(F.Admitted(h, key), now - p.window);
  }

  lemma LaterAllowed(ops: seq<M.Op>, more: seq<M.Op>, key: string, p: Policy, minTTL: int, now: int, left: nat,
                     r: M.Reply)
    requires F.InOrder(ops + more) && more != [] && AtOnce(more, key, p, now) && p.Enforceable()
    requires more[|more| - 1].AllowOp? && more[|more| - 1].key == key && r == M.LastReply(ops + more, minTTL)
    requires PlacesAfter(ops, key, p, now, left)
    ensures r.Decided? && (r.decision.allowed <==> |G.Arrivals(more[..|more| - 1], key)| < left)
  {
    var h, rest, op := F.Run(ops, Memory), more[..|more| - 1], more[|more| - 1];
    var before := Before(ops, key, p, now, left, h);
    assert r == F.Step(G.RunFrom(h, rest), op, Memory).1 by { LaterReply(ops, more, rest, op, minTTL, h, r); }
    NextPlace(h, more, rest, op, key, p, now, before, r);
  }

  lemma LeftInRun(ops: seq<M.Op>, more: seq<M.Op>, key: string, p: Policy, minTTL: int, op: M.Op, r: M.Reply)
    returns (left: nat)
    requires F.InOrder(ops + more) && ops != [] && op == ops[|ops| - 1] && op.AllowOp? && op.key == key
    requires op.policy.Normalize() == p && r == M.LastReply(ops, minTTL)
    ensures r.Decided? && r.decision.remaining == left && PlacesAfter(ops, key, p, op.now, left)
  {
    var log := G.Accepted(ops, key, minTTL);
    assert F.InOrder(ops) by { G.InOrderParts(ops, more); }
    assert r.Decided? by { LastDecides(ops, minTTL); }
    assert F.Admitted(F.Run(ops, Memory), key) == log by { AcceptedIsHistory(ops, key, minTTL); }
    left := NonNegative(p.limit - CountAfter(log, op.now - p.window));
    assert r.decision.remaining == left by { RunPlacesLeft(ops, key, p, minTTL, op, r.decision, log); }
  }

  /** `remaining` is exact. After any reply, of the key's further requests at that instant under the same
      policy exactly the first `remaining` are admitted, whatever the janitor, Peek and other keys do. */
  lemma RemainingIsExact(ops: seq<M.Op>, more: seq<M.Op>, key: string, p: Policy, minTTL: int, op: M.Op, r: M.Reply,
                         later: M.Reply)
    requires F.InOrder(ops + more) && ops != [] && more != []
    requires op == ops[|ops| - 1] && op.AllowOp? && op.key == key && op.policy.Normalize() == p
    requires AtOnce(more, key, p, op.now) && more[|more| - 1].AllowOp? && more[|more| - 1].key == key
    requires r == M.LastReply(ops, minTTL) && later == M.LastReply(ops + more, minTTL)
    ensures r.Decided? && later.Decided?
    ensures later.decision.allowed <==> |G.Arrivals(more[..|more| - 1], key)| < r.decision.remaining
  {
    var left := LeftInRun(ops, more, key, p, minTTL, op, r);
    LaterAllowed(ops, more, key, p, minTTL, op.now, left, later);
  }

  // ---------------------------------------------------------------- the same of Redis

  /** The instants, cut to whole milliseconds, at which Redis admitted requests of one key. */
  ghost function Taken(ops: seq<M.Op>, cuts: seq<M.Op>, names: seq<string>, key: string, skew: int): seq<int>
    requires |ops| == |cuts| <= |names|
  {
    if ops == [] then []
    else
      var n := |ops| - 1;
      var earlier := Taken(ops[..n], cuts[..n], names, key, skew);
      if ops[n].AllowOp? && ops[n].key == key && B.LastReply(ops, names, skew).decision.allowed
      then earlier + [cuts[n].now] else earlier
  }

  /** What Redis tells a client in a run is what memory tells it in the cut run. */
  ghost predicate Alike(ops: seq<M.Op>, cuts: seq<M.Op>, names: seq<string>, skew: int, minTTL: int)
    requires 0 < |ops| == |cuts| <= |names|
  {
    var op := ops[|ops| - 1];
    B.NoStraddle(op) ==>
      B.Corresponds(op, B.LastReply(ops, names, skew), B.FromRedis(M.LastReply(cuts, minTTL)))
  }

  /** A run at any instants, its cut, and ids that differ. */
  ghost predicate Runs(ops: seq<M.Op>, cuts: seq<M.Op>, names: seq<string>) {
    B.AreCuts(cuts, ops) && |ops| <= |names| && B.DistinctIds(ops, names) && F.InOrder(ops)
  }

  lemma RunsPrefix(ops: seq<M.Op>, cuts: seq<M.Op>, names: seq<string>, n: nat)
    requires Runs(ops, cuts, names) && n <= |ops|
    ensures Runs(ops[..n], cuts[..n], names)
  {
    F.InOrderPrefix(ops, n);
  }

  lemma RunsAlike(ops: seq<M.Op>, cuts: seq<M.Op>, names: seq<string>, skew: int, minTTL: int)
    requires ops != [] && Runs(ops, cuts, names)
    ensures Alike(ops, cuts, names, skew, minTTL)
  {
    if B.NoStraddle(ops[|ops| - 1]) {
      B.CutNames(ops, cuts, names);
      B.CutsInOrder(cuts, ops);
      B.CutReply(ops, cuts, names, skew);
      B.NamedBisimilar(cuts, names, skew, minTTL);
    }
  }

  /** Both backends admit the same requests. */
  lemma {:induction false} TakenIsAccepted(ops: seq<M.Op>, cuts: seq<M.Op>, names: seq<string>, key: string, skew: int,
                                           minTTL: int)
    requires Runs(ops, cuts, names)
    ensures Taken(ops, cuts, names, key, skew) == G.Accepted(cuts, key, minTTL)
  {
    if ops != [] {
      var n := |ops| - 1;
      RunsPrefix(ops, cuts, names, n);
      TakenIsAccepted(ops[..n], cuts[..n], names, key, skew, minTTL);
      RunsAlike(ops, cuts, names, skew, minTTL);
      assert B.IsCut(cuts[n], ops[n]);
    }
  }

  /** The right reply of Redis to a call: it counts in whole milliseconds, and tells the window and the
      reset time in the caller's own terms. */
  ghost predicate RightReplyCut(op: M.Op, r: M.Reply, cut: M.Op, log: seq<int>) {
    match op
    case AllowOp(now, _, policy) =>
      && cut.AllowOp? && r.Decided?
      && r.decision.window == policy.Normalize().window && r.decision.resetAt == now + r.decision.retryAfter
      && Answers(r.decision.(window := cut.policy.Normalize().window, resetAt := cut.now + r.decision.retryAfter), log,
                 cut.now, cut.policy.Normalize(), Redis)
    case PeekOp(_, _, policy) => cut.PeekOp? && r == M.Used(CountAfter(log, cut.now - cut.policy.Normalize().window))
    case CleanupOp(_) => r == M.Done
  }

  lemma AnswersCut(op: M.Op, r: M.Reply, cut: M.Op, r': M.Reply, log: seq<int>)
    requires B.IsCut(cut, op) && !op.CleanupOp? && RightReply(cut, r', log, Memory)
    requires B.Corresponds(op, r, B.FromRedis(r'))
    ensures RightReplyCut(op, r, cut, log)
  {
  }

  /** Memory is right about the cut run, told from what Redis has admitted. */
  lemma CutRunIsRight(ops: seq<M.Op>, cuts: seq<M.Op>, names: seq<string>, skew: int, cut: M.Op, r: M.Reply,
                      log: seq<int>)
    requires ops != [] && Runs(ops, cuts, names) && cut == cuts[|ops| - 1] && !cut.CleanupOp?
    requires r == M.LastReply(cuts, 0)
    requires log == Taken(ops[..|ops| - 1], cuts[..|ops| - 1], names, cut.key, skew)
    ensures RightReply(cut, r, log, Memory)
  {
    var n := |ops| - 1;
    RunsPrefix(ops, cuts, names, n);
    TakenIsAccepted(ops[..n], cuts[..n], names, cut.key, skew, 0);
    B.CutsInOrder(cuts, ops);
    ReplyIsRight(cuts, 0);
  }

  lemma CutOfLast(ops: seq<M.Op>, cuts: seq<M.Op>)
    requires ops != [] && B.AreCuts(cuts, ops)
    ensures B.IsCut(cuts[|ops| - 1], ops[|ops| - 1])
  {
  }

  lemma RunReplyIsRight(ops: seq<M.Op>, cuts: seq<M.Op>, names: seq<string>, skew: int, op: M.Op, cut: M.Op, r: M.Reply,
                        log: seq<int>)
    requires ops != [] && Runs(ops, cuts, names) && op == ops[|ops| - 1] && cut == cuts[|ops| - 1]
    requires !op.CleanupOp? && B.NoStraddle(op) && r == B.LastReply(ops, names, skew)
    requires log == Taken(ops[..|ops| - 1], cuts[..|ops| - 1], names, op.key, skew)
    ensures RightReplyCut(op, r, cut, log)
  {
    CutOfLast(ops, cuts);
    RunsAlike(ops, cuts, names, skew, 0);
    CutRunIsRight(ops, cuts, names, skew, cut, M.LastReply(cuts, 0), log);
    AnswersCut(op, r, cut, M.LastReply(cuts, 0), log);
  }

  /** A run in order, its cut, and the ids the instances give to its requests. */
  ghost predicate OwnRun(ops: seq<M.Op>, cuts: seq<M.Op>, who: seq<string>, names: seq<string>) {
    |ops| == |cuts| == |names| && F.InOrder(ops) && B.Named(ops, who) && B.AreCuts(cuts, ops)
    && names == B.OwnNames(ops, who)
  }

  /** Every reply of Redis is right, at whatever instants, whichever instances call, and whatever the skew
      of the server's clock. */
  lemma RedisReplyIsRight(ops: seq<M.Op>, cuts: seq<M.Op>, who: seq<string>, names: seq<string>, skew: int, op: M.Op,
                          cut: M.Op)
    requires OwnRun(ops, cuts, who, names) && ops != [] && op == ops[|ops| - 1] && cut == cuts[|ops| - 1]
    requires !op.CleanupOp? && B.NoStraddle(op)
    ensures var log := Taken(ops[..|ops| - 1], cuts[..|ops| - 1], names, op.key, skew);
            RightReplyCut(op, B.LastReply(ops, names, skew), cut, log)
  {
    var n := |ops| - 1;
    B.OwnNamesDistinct(ops, who);
    RunReplyIsRight(ops, cuts, names, skew, op, cut, B.LastReply(ops, names, skew),
                    Taken(ops[..n], cuts[..n], names, op.key, skew));
  }

  lemma DecidesAlike(ops: seq<M.Op>, cuts: seq<M.Op>, names: seq<string>, skew: int, r: M.Reply, r': M.Reply)
    requires ops != [] && Runs(ops, cuts, names) && ops[|ops| - 1].AllowOp?
    requires r == B.LastReply(ops, names, skew) && r' == M.LastReply(cuts, 0)
    ensures r.Decided? && r'.Decided?
    ensures r.decision.allowed == r'.decision.allowed && r.decision.remaining == r'.decision.remaining
  {
    RunsAlike(ops, cuts, names, skew, 0);
  }

  lemma LastIsAllow(cuts: seq<M.Op>, ops: seq<M.Op>)
    requires ops != [] && B.AreCuts(cuts, ops)
    ensures ops[|ops| - 1].AllowOp? <==> cuts[|cuts| - 1].AllowOp?
    ensures ops[|ops| - 1].AllowOp? ==> ops[|ops| - 1].key == cuts[|cuts| - 1].key
  {
    CutOfLast(ops, cuts);
  }

  /** Redis, too, admits exactly the first `remaining` of the key's further requests in the same
      millisecond. */
  lemma RedisRemainingIsExact(ops: seq<M.Op>, more: seq<M.Op>, cuts: seq<M.Op>, cuts': seq<M.Op>, key: string,
                              p: Policy, who: seq<string>, names: seq<string>, skew: int, cut: M.Op, r: M.Reply,
                              later: M.Reply)
    requires F.InOrder(ops + more) && B.Named(ops + more, who) && ops != [] && more != []
    requires names == B.OwnNames(ops + more, who) && B.AreCuts(cuts, ops) && B.AreCuts(cuts', more)
    requires cut == cuts[|cuts| - 1] && cut.AllowOp? && cut.key == key && cut.policy.Normalize() == p
    requires AtOnce(cuts', key, p, cut.now) && more[|more| - 1].AllowOp? && more[|more| - 1].key == key
    requires r == B.LastReply(ops, names, skew) && later == B.LastReply(ops + more, names, skew)
    ensures r.Decided? && later.Decided?
    ensures later.decision.allowed <==> |G.Arrivals(cuts'[..|cuts'| - 1], key)| < r.decision.remaining
  {
    B.OwnNamesDistinct(ops + more, who);
    RemainingAlike(ops, more, cuts, cuts', key, p, names, skew, cut, r, later);
  }

  lemma RemainingAlike(ops: seq<M.Op>, more: seq<M.Op>, cuts: seq<M.Op>, cuts': seq<M.Op>, key: string, p: Policy,
                       names: seq<string>, skew: int, cut: M.Op, r: M.Reply, later: M.Reply)
    requires F.InOrder(ops + more) && |ops + more| <= |names| && B.DistinctIds(ops + more, names)
    requires ops != [] && more != [] && B.AreCuts(cuts, ops) && B.AreCuts(cuts', more)
    requires cut == cuts[|cuts| - 1] && cut.AllowOp? && cut.key == key && cut.policy.Normalize() == p
    requires AtOnce(cuts', key, p, cut.now) && more[|more| - 1].AllowOp? && more[|more| - 1].key == key
    requires r == B.LastReply(ops, names, skew) && later == B.LastReply(ops + more, names, skew)
    ensures r.Decided? && later.Decided?
    ensures later.decision.allowed <==> |G.Arrivals(cuts'[..|cuts'| - 1], key)| < r.decision.remaining
  {
    var all, allCuts := ops + more, cuts + cuts';
    var r', later' := M.LastReply(cuts, 0), M.LastReply(allCuts, 0);
    AllRuns(ops, more, cuts, cuts', names);
    LastIsAllow(cuts, ops);
    LastIsAllow(cuts', more);
    assert all[|all| - 1] == more[|more| - 1];
    DecidesAlike(ops, cuts, names, skew, r, r');
    DecidesAlike(all, allCuts, names, skew, later, later');
    assert F.InOrder(allCuts) by { B.CutsInOrder(allCuts, all); }
    RemainingIsExact(cuts, cuts', key, p, 0, cut, r', later');
  }

  lemma AllRuns(ops: seq<M.Op>, more: seq<M.Op>, cuts: seq<M.Op>, cuts': seq<M.Op>, names: seq<string>)
    requires F.InOrder(ops + more) && B.AreCuts(cuts, ops) && B.AreCuts(cuts', more)
    requires |ops + more| <= |names| && B.DistinctIds(ops + more, names)
    ensures Runs(ops + more, cuts + cuts', names) && Runs(ops, cuts, names)
  {
    var all, allCuts := ops + more, cuts + cuts';
    forall i | 0 <= i < |all| ensures B.IsCut(allCuts[i], all[i]) {
      if i >= |ops| { assert B.IsCut(cuts'[i - |ops|], more[i - |ops|]); }
    }
    RunsPrefix(all, allCuts, names, |ops|);
    assert all[..|ops|] == ops && allCuts[..|ops|] == cuts;
  }
}
