/** What RedisLimiter.Peek reports, for windows of any width at any instant: internal/limiter/redis.go.

    Only Allow trims a set and sets its expiry. What lies at or before the start of the last Allow's
    window is gone, and everything is once one such window has passed; a Peek that looks further back
    cannot know. */
module RedisPeek {
  import opened Policies
  import opened SlidingWindow
  import H = RedisHistory
  import R = RedisScript
  import M = MemoryModel
  import F = FullHistory
  import B = Bisimulation

  /** The last Allow of a key: when, and with which window, in milliseconds. */
  datatype Last = Never | At(ms: int, windowMs: int)

  function LastAllow(ops: seq<M.Op>, key: string): Last {
    if ops == [] then Never
    else
      var op := ops[|ops| - 1];
      if op.AllowOp? && op.key == key then At(R.ToMs(op.now), B.WindowMs(op)) else LastAllow(ops[..|ops| - 1], key)
  }

  /** The set under a key is what the last Allow left. */
  ghost predicate Left(server: R.Server, key: string, log: B.Log, last: Last, skew: int) {
    match last
    case Never => key !in server && log.hist == [] && log.names == []
    case At(ms, w) =>
      && w > 0 && H.Book(log.hist, log.names, ms)
      && key in server && server[key] == R.ZSet(H.Tail(log.hist, log.names, ms - w), ms + skew + w)
  }

  lemma LeftMirrors(server: R.Server, key: string, log: B.Log, last: Last, skew: int, now: int)
    requires Left(server, key, log, last, skew) && (last.At? ==> last.ms <= now)
    ensures H.KeyMirrors(server, key, log.hist, log.names, if last.At? then last.windowMs else 0,
                         if last.At? then last.ms else now, skew)
  {
    if last.At? { H.MirrorsAfter(server, key, log.hist, log.names, last.windowMs, last.ms, skew); }
  }

  lemma EvalLeaves(server: R.Server, key: string, log: B.Log, last: Last, ms: int, w: int, limit: int, name: string,
                   skew: int, server': R.Server, log': B.Log)
    requires Left(server, key, log, last, skew) && w > 0 && limit >= 1 && name !in log.names
    requires last.At? ==> last.ms <= ms && w <= last.windowMs
    requires server' == R.Eval(server, key, ms + skew, ms, w, limit, name).0
    requires log' == B.Log(H.Extended(log.hist, ms, w, limit), H.ExtendedNames(log.hist, log.names, ms, w, limit, name))
    ensures Left(server', key, log', At(ms, w), skew)
  {
    LeftMirrors(server, key, log, last, skew, ms);
    H.FindTail(server, key, log.hist, log.names, if last.At? then last.windowMs else 0,
               if last.At? then last.ms else ms, w, ms, skew);
    assert H.Book(log.hist, log.names, ms);
    H.CountedMirrors(log.hist, log.names, ms, w, limit, name, log'.hist, log'.names);
    H.CountedNotEmpty(H.Tail(log.hist, log.names, ms - w), ms, limit, name);
  }

  /** What a call leaves under a key. */
  lemma StepLeaves(server: R.Server, op: M.Op, key: string, log: B.Log, last: Last, name: string, skew: int,
                   log': B.Log, last': Last)
    requires Left(server, key, log, last, skew) && (op.AllowOp? ==> name !in log.names)
    requires var own := op.AllowOp? && op.key == key;
             && log' == (if own then B.Append(log, op, name) else log)
             && last' == (if own then At(R.ToMs(op.now), B.WindowMs(op)) else last)
             && (own && last.At? ==> last.ms <= R.ToMs(op.now) && B.WindowMs(op) <= last.windowMs)
    ensures Left(B.Step(server, op, name, skew).0, key, log', last', skew)
  {
    if op.AllowOp? && op.key == key {
      var ms, w, p := R.ToMs(op.now), B.WindowMs(op), op.policy.Normalize();
      B.WindowMsPositive(op);
      B.AllowIsEval(server, op, ms, p, w, name, skew);
      EvalLeaves(server, key, log, last, ms, w, p.limit, name, skew, B.Step(server, op, name, skew).0, log');
    }
  }

  lemma {:induction false} LastIsEarlier(ops: seq<M.Op>, n: nat, key: string)
    requires F.InOrder(ops) && n < |ops| && ops[n].AllowOp? && ops[n].key == key
    ensures var last := LastAllow(ops[..n], key);
            last.At? ==> last.ms <= R.ToMs(ops[n].now) && B.WindowMs(ops[n]) <= last.windowMs
  {
    var m := LastIndex(ops[..n], key);
    if m >= 0 {
      assert ops[..n][m] == ops[m] && F.OnSameKey(ops[m], ops[n]);
    }
  }

  function LastIndex(ops: seq<M.Op>, key: string): (m: int)
    ensures -1 <= m < |ops|
    ensures m >= 0 ==> ops[m].AllowOp? && ops[m].key == key
                       && LastAllow(ops, key) == At(R.ToMs(ops[m].now), B.WindowMs(ops[m]))
    ensures m < 0 ==> LastAllow(ops, key) == Never
  {
    if ops == [] then -1
    else if ops[|ops| - 1].AllowOp? && ops[|ops| - 1].key == key then |ops| - 1
    else LastIndex(ops[..|ops| - 1], key)
  }

  lemma {:induction false} RunLeaves(ops: seq<M.Op>, names: seq<string>, key: string, skew: int)
    requires |ops| <= |names| && F.InOrder(ops) && B.DistinctIds(ops, names)
    ensures Left(B.Run(ops, names, skew), key, B.LogOf(ops, names, key), LastAllow(ops, key), skew)
  {
    if ops != [] {
      var n := |ops| - 1;
      F.InOrderPrefix(ops, n);
      RunLeaves(ops[..n], names, key, skew);
      if ops[n].AllowOp? { B.FreshName(ops, names, n, key); }
      if ops[n].AllowOp? && ops[n].key == key { LastIsEarlier(ops, n, key); }
      StepLeaves(B.Run(ops[..n], names, skew), ops[n], key, B.LogOf(ops[..n], names, key), LastAllow(ops[..n], key),
                 names[n], skew, B.LogOf(ops, names, key), LastAllow(ops, key));
    }
  }

  // ---------------------------------------------------------------- the count

  /** Has a stamp been trimmed by the last Allow, or expired with it, by an instant? */
  predicate Gone(stamp: int, last: Last, ms: int) {
    last.At? && (stamp <= last.ms - last.windowMs || ms >= last.ms + last.windowMs)
  }

  function Found(hist: seq<int>, last: Last, ms: int, cutoff: int): nat {
    if last.Never? || ms >= last.ms + last.windowMs then 0
    else CountAfter(hist, if cutoff < last.ms - last.windowMs then last.ms - last.windowMs else cutoff)
  }

  lemma LeftCounts(server: R.Server, key: string, log: B.Log, last: Last, skew: int, ms: int, cutoff: int)
    requires Left(server, key, log, last, skew)
    ensures |R.RemoveUpTo(R.Find(server, key, ms + skew), cutoff)| == Found(log.hist, last, ms, cutoff)
  {
    if last.Never? || ms >= last.ms + last.windowMs {
      assert R.RemoveUpTo(map[], cutoff) == map[];
    } else {
      var a := last.ms - last.windowMs;
      var c := if cutoff < a then a else cutoff;
      RemoveFromTail(log.hist, log.names, a, cutoff, c);
      H.TailSize(log.hist, log.names, c);
    }
  }

  lemma RemoveFromTail(hist: seq<int>, names: seq<string>, a: int, cutoff: int, c: int)
    requires |names| == |hist| && H.Distinct(names) && c == if cutoff < a then a else cutoff
    ensures R.RemoveUpTo(H.Tail(hist, names, a), cutoff) == H.Tail(hist, names, c)
  {
    if cutoff < a {
      H.TailKeys(hist, names, a);
    } else {
      H.TailRemove(hist, names, a, cutoff);
    }
  }

  /** The count is short exactly when a stamp that should count is gone. */
  lemma {:induction false} ShortExactlyWhen(hist: seq<int>, a: int, c: int)
    ensures CountAfter(hist, if c < a then a else c) <= CountAfter(hist, c)
    ensures CountAfter(hist, if c < a then a else c) == CountAfter(hist, c)
            <==> forall i :: 0 <= i < |hist| && hist[i] > c ==> hist[i] > a
  {
    if hist != [] {
      var n := |hist| - 1;
      ShortExactlyWhen(hist[..n], a, c);
      assert forall i :: 0 <= i < n ==> hist[..n][i] == hist[i];
    }
  }

  lemma {:induction false} NoneExactlyWhen(hist: seq<int>, c: int)
    ensures CountAfter(hist, c) == 0 <==> forall i :: 0 <= i < |hist| ==> hist[i] <= c
  {
    if hist != [] {
      var n := |hist| - 1;
      NoneExactlyWhen(hist[..n], c);
      assert forall i :: 0 <= i < n ==> hist[..n][i] == hist[i];
    }
  }

  lemma FoundExactlyWhen(hist: seq<int>, last: Last, ms: int, cutoff: int)
    requires last.Never? ==> hist == []
    ensures Found(hist, last, ms, cutoff) == CountAfter(hist, cutoff)
            <==> forall i :: 0 <= i < |hist| && hist[i] > cutoff ==> !Gone(hist[i], last, ms)
  {
    if last.At? {
      if ms >= last.ms + last.windowMs {
        NoneExactlyWhen(hist, cutoff);
      } else {
        ShortExactlyWhen(hist, last.ms - last.windowMs, cutoff);
      }
    }
  }

  // ---------------------------------------------------------------- runs

  /** The milliseconds in which Redis admitted requests of one key. */
  ghost function Stamps(ops: seq<M.Op>, names: seq<string>, key: string, skew: int): seq<int>
    requires |ops| <= |names|
  {
    if ops == [] then []
    else
      var n := |ops| - 1;
      var earlier := Stamps(ops[..n], names, key, skew);
      if ops[n].AllowOp? && ops[n].key == key && B.LastReply(ops, names, skew).decision.allowed
      then earlier + [R.ToMs(ops[n].now)] else earlier
  }

  lemma DecisionIs(server: R.Server, op: M.Op, ms: int, p: Policy, w: int, name: string, skew: int, r: R.Reply)
    requires op.AllowOp? && ms == R.ToMs(op.now) && p == op.policy.Normalize() && w == R.ToMs(p.window) > 0
    requires r == R.Eval(server, op.key, ms + skew, ms, w, p.limit, name).1
    ensures B.Step(server, op, name, skew).1.Decided? && B.Step(server, op, name, skew).1.decision.allowed == r.allowed
  {
    B.AllowAnswer(server, op, ms, p, name, skew, R.FromReply(r, p, op.now));
  }

  lemma EvalAllows(server: R.Server, key: string, log: B.Log, last: Last, name: string, skew: int, ms: int, w: int,
                   limit: int, r: R.Reply)
    requires Left(server, key, log, last, skew) && name !in log.names && w > 0 && limit >= 1
    requires last.At? ==> last.ms <= ms && w <= last.windowMs
    requires r == R.Eval(server, key, ms + skew, ms, w, limit, name).1
    ensures r.allowed <==> CountAfter(log.hist, ms - w) < limit
  {
    LeftMirrors(server, key, log, last, skew, ms);
    H.EvalMirrors(server, key, log.hist, log.names, if last.At? then last.windowMs else 0,
                  if last.At? then last.ms else ms, ms, w, limit, name, skew,
                  R.Eval(server, key, ms + skew, ms, w, limit, name).0, H.Extended(log.hist, ms, w, limit),
                  H.ExtendedNames(log.hist, log.names, ms, w, limit, name));
  }

  lemma StepAllows(server: R.Server, op: M.Op, log: B.Log, last: Last, name: string, skew: int, log': B.Log)
    requires op.AllowOp? && Left(server, op.key, log, last, skew) && name !in log.names
    requires last.At? ==> last.ms <= R.ToMs(op.now) && B.WindowMs(op) <= last.windowMs
    requires log' == B.Append(log, op, name)
    ensures var r := B.Step(server, op, name, skew).1;
            && r.Decided?
            && log'.hist == if r.decision.allowed then log.hist + [R.ToMs(op.now)] else log.hist
  {
    var ms, p, w := R.ToMs(op.now), op.policy.Normalize(), B.WindowMs(op);
    var r := R.Eval(server, op.key, ms + skew, ms, w, p.limit, name).1;
    B.WindowMsPositive(op);
    EvalAllows(server, op.key, log, last, name, skew, ms, w, p.limit, r);
    DecisionIs(server, op, ms, p, w, name, skew, r);
  }

  lemma StampsStep(ops: seq<M.Op>, n: nat, names: seq<string>, key: string, skew: int, r: M.Reply, log: seq<int>)
    requires |ops| == n + 1 <= |names| && r == B.Step(B.Run(ops[..n], names, skew), ops[n], names[n], skew).1
    requires Stamps(ops[..n], names, key, skew) == log
    ensures Stamps(ops, names, key, skew)
            == if ops[n].AllowOp? && ops[n].key == key && r.decision.allowed then log + [R.ToMs(ops[n].now)] else log
  {
  }

  lemma {:induction false} StampsAreLog(ops: seq<M.Op>, names: seq<string>, key: string, skew: int)
    requires |ops| <= |names| && F.InOrder(ops) && B.DistinctIds(ops, names)
    ensures Stamps(ops, names, key, skew) == B.LogOf(ops, names, key).hist
  {
    if ops != [] {
      var n := |ops| - 1;
      var op, rest := ops[n], ops[..n];
      F.InOrderPrefix(ops, n);
      StampsAreLog(rest, names, key, skew);
      var server, log := B.Run(rest, names, skew), B.LogOf(rest, names, key);
      StampsStep(ops, n, names, key, skew, B.Step(server, op, names[n], skew).1, log.hist);
      if op.AllowOp? && op.key == key {
        RunLeaves(rest, names, key, skew);
        B.FreshName(ops, names, n, key);
        LastIsEarlier(ops, n, key);
        StepAllows(server, op, log, LastAllow(rest, key), names[n], skew, B.LogOf(ops, names, key));
      }
    }
  }

  /** What Peek has to report after a run: the requests admitted since the start of its window that are
      not gone. */
  ghost predicate Reports(r: M.Reply, stamps: seq<int>, last: Last, ms: int, cutoff: int) {
    && r == M.Used(Found(stamps, last, ms, cutoff))
    && (r.used == CountAfter(stamps, cutoff)
        <==> forall i :: 0 <= i < |stamps| && stamps[i] > cutoff ==> !Gone(stamps[i], last, ms))
  }

  lemma PeekReports(server: R.Server, op: M.Op, log: B.Log, last: Last, name: string, skew: int, ms: int, cutoff: int)
    requires op.PeekOp? && Left(server, op.key, log, last, skew)
    requires ms == R.ToMs(op.now) && cutoff == R.ToMs(op.now - op.policy.Normalize().window)
    ensures Reports(B.Step(server, op, name, skew).1, log.hist, last, ms, cutoff)
  {
    LeftCounts(server, op.key, log, last, skew, ms, cutoff);
    FoundExactlyWhen(log.hist, last, ms, cutoff);
  }

  /** A Peek after any run in order, at any instant and under any window, counts the requests that Redis
      has admitted since the start of its window right if and only if none of those is gone: trimmed at
      the start of the last Allow's window, or expired with it. */
  lemma PeekIsRightExactlyWhen(ops: seq<M.Op>, who: seq<string>, names: seq<string>, skew: int, op: M.Op, name: string)
    requires F.InOrder(ops) && B.Named(ops, who) && names == B.OwnNames(ops, who) && op.PeekOp?
    ensures Reports(B.Step(B.Run(ops, names, skew), op, name, skew).1, Stamps(ops, names, op.key, skew),
                    LastAllow(ops, op.key), R.ToMs(op.now), R.ToMs(op.now - op.policy.Normalize().window))
  {
    B.OwnNamesDistinct(ops, who);
    RunLeaves(ops, names, op.key, skew);
    StampsAreLog(ops, names, op.key, skew);
    PeekReports(B.Run(ops, names, skew), op, B.LogOf(ops, names, op.key), LastAllow(ops, op.key), name, skew,
                R.ToMs(op.now), R.ToMs(op.now - op.policy.Normalize().window));
  }
}
