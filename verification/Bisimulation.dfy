/** The two backends cannot be told apart: on the same calls, cut to whole milliseconds, the Redis
    limiter and the in-memory limiter give the same answers in every run (internal/limiter/redis.go,
    internal/limiter/memory.go). */
module Bisimulation {
  import opened Policies
  import opened H = RedisHistory
  import R = RedisScript
  import M = MemoryModel
  import F = FullHistory
  import Members

  ghost function Step(server: R.Server, op: M.Op, member: string, skew: int): (R.Server, M.Reply) {
    match op
    case AllowOp(now, key, policy) =>
      var r := R.Allow(server, key, R.ToMs(now) + skew, now, policy, member);
      (r.0, M.Decided(r.1))
    case PeekOp(now, key, policy) => (server, M.Used(R.Peek(server, key, R.ToMs(now) + skew, now, policy)))
    case CleanupOp(now) => (server, M.Done)
  }

  /** A run in which call number i carries the member id names[i]; the server's clock differs from
      the callers' by a fixed number of milliseconds. */
  ghost function Run(ops: seq<M.Op>, names: seq<string>, skew: int): R.Server
    requires |ops| <= |names|
  {
    if ops == [] then map[]
    else Step(Run(ops[..|ops| - 1], names, skew), ops[|ops| - 1], names[|ops| - 1], skew).0
  }

  ghost function LastReply(ops: seq<M.Op>, names: seq<string>, skew: int): M.Reply
    requires 0 < |ops| <= |names|
  {
    Step(Run(ops[..|ops| - 1], names, skew), ops[|ops| - 1], names[|ops| - 1], skew).1
  }

  predicate Whole(t: int) {
    t == R.ToMs(t) * MILLISECOND
  }

  /** Calls at whole milliseconds, with windows of whole milliseconds. */
  ghost predicate WholeCalls(ops: seq<M.Op>) {
    forall i :: 0 <= i < |ops| ==>
      Whole(ops[i].now) && (!ops[i].CleanupOp? ==> Whole(ops[i].policy.Normalize().window))
  }

  function WindowMs(op: M.Op): int
    requires !op.CleanupOp?
  {
    R.ToMs(op.policy.Normalize().window)
  }

  /** One key's admissions, in milliseconds, and the names they carried. */
  datatype Log = Log(hist: seq<int>, names: seq<string>)

  function Append(log: Log, op: M.Op, name: string): Log
    requires op.AllowOp?
  {
    Log(Extended(log.hist, R.ToMs(op.now), WindowMs(op), op.policy.Normalize().limit),
        ExtendedNames(log.hist, log.names, R.ToMs(op.now), WindowMs(op), op.policy.Normalize().limit, name))
  }

  function LogOf(ops: seq<M.Op>, names: seq<string>, key: string): Log
    requires |ops| <= |names|
  {
    if ops == [] then Log([], [])
    else
      var n := |ops| - 1;
      var log := LogOf(ops[..n], names, key);
      if ops[n].AllowOp? && ops[n].key == key then Append(log, ops[n], names[n]) else log
  }

  /** Some request among the first calls of a run carried a name. */
  ghost predicate Used(ops: seq<M.Op>, names: seq<string>, m: string)
    requires |ops| <= |names|
  {
    exists i :: 0 <= i < |ops| && ops[i].AllowOp? && names[i] == m
  }

  lemma {:induction false} LogNames(ops: seq<M.Op>, names: seq<string>, key: string)
    requires |ops| <= |names|
    ensures forall m :: m in LogOf(ops, names, key).names ==> Used(ops, names, m)
  {
    if ops != [] {
      var n := |ops| - 1;
      LogNames(ops[..n], names, key);
      forall m | m in LogOf(ops, names, key).names ensures Used(ops, names, m) {
        if Used(ops[..n], names, m) {
          var i :| 0 <= i < n && ops[..n][i].AllowOp? && names[i] == m;
          assert ops[i].AllowOp?;
        }
      }
    }
  }

  /** The Redis limiter's state and the full history of one key, told in milliseconds. */
  ghost predicate KeyAgrees(server: R.Server, h: F.History, key: string, log: Log, w: int, now: int, skew: int) {
    KeyMirrors(server, key, log.hist, log.names, w, now, skew) && F.Admitted(h, key) == ToNs(log.hist)
  }

  lemma AllowAnswer(server: R.Server, op: M.Op, ms: int, p: Policy, name: string, skew: int, d: Decision)
    requires op.AllowOp? && R.ToMs(op.now) == ms && p == op.policy.Normalize()
    requires R.Decide(server, op.key, ms + skew, op.now, p, name).1 == d
    ensures Step(server, op, name, skew).1 == M.Decided(d)
  {
  }

  /** One decision comes out alike on both sides, given what the script replies. */
  lemma DecisionsAgree(server: R.Server, key: string, clock: int, now: int, hist: seq<int>, ms: int, p: Policy,
                       windowMs: int, name: string)
    requires now == ms * MILLISECOND && p.window == windowMs * MILLISECOND > 0
    requires R.Eval(server, key, clock, ms, windowMs, p.limit, name).1 == Expected(hist, ms, windowMs, p.limit)
    ensures R.Decide(server, key, clock, now, p, name).1 == F.Decide(Redis, ToNs(hist), now, p).1
  {
    DecideIsEval(server, key, clock, ms, p, windowMs, name, Expected(hist, ms, windowMs, p.limit));
    DecideInMs(hist, ms, p, windowMs);
  }

  lemma AllowHistory(h: F.History, op: M.Op, log: Log, name: string)
    requires op.AllowOp? && F.Admitted(h, op.key) == ToNs(log.hist)
    requires Whole(op.now) && Whole(op.policy.Normalize().window) && WindowMs(op) > 0
    ensures F.Step(h, op, Redis).1 == M.Decided(F.Decide(Redis, ToNs(log.hist), op.now, op.policy.Normalize()).1)
    ensures F.Admitted(F.Step(h, op, Redis).0, op.key) == ToNs(Append(log, op, name).hist)
  {
    DecideInMs(log.hist, R.ToMs(op.now), op.policy.Normalize(), WindowMs(op));
  }

  lemma DecideEvaluates(server: R.Server, key: string, clock: int, now: int, ms: int, p: Policy, windowMs: int,
                        name: string)
    requires R.ToMs(now) == ms && R.ToMs(p.window) == windowMs >= 1
    ensures R.Decide(server, key, clock, now, p, name).0 == R.Eval(server, key, clock, ms, windowMs, p.limit, name).0
  {
  }

  /** On whole milliseconds one Allow evaluates the script once, on exactly its own time and window. */
  lemma AllowIsEval(server: R.Server, op: M.Op, ms: int, p: Policy, windowMs: int, name: string, skew: int)
    requires op.AllowOp? && R.ToMs(op.now) == ms && p == op.policy.Normalize() && R.ToMs(p.window) == windowMs > 0
    ensures Step(server, op, name, skew).0 == R.Eval(server, op.key, ms + skew, ms, windowMs, p.limit, name).0
  {
    DecideEvaluates(server, op.key, ms + skew, op.now, ms, p, windowMs, name);
  }

  lemma PeekStep(server: R.Server, h: F.History, op: M.Op, log: Log, w: int, now: int, name: string, skew: int)
    requires op.PeekOp? && KeyAgrees(server, h, op.key, log, w, now, skew) && now <= R.ToMs(op.now)
    requires Whole(op.now) && Whole(op.policy.Normalize().window) && (w > 0 ==> WindowMs(op) <= w)
    ensures Step(server, op, name, skew).1 == F.Step(h, op, Redis).1
  {
    var p := op.policy.Normalize();
    WindowSize(server, op.key, log.hist, log.names, w, now, R.ToMs(op.now), WindowMs(op), skew);
    UsageAgrees(server, op.key, R.ToMs(op.now) + skew, log.hist, R.ToMs(op.now), p, WindowMs(op));
  }

  lemma AllowKeyStep(server: R.Server, h: F.History, op: M.Op, log: Log, w: int, now: int, name: string, skew: int,
                     ms: int, p: Policy, windowMs: int)
    requires op.AllowOp? && KeyAgrees(server, h, op.key, log, w, now, skew) && now <= ms
    requires ms == R.ToMs(op.now) && p == op.policy.Normalize() && windowMs == WindowMs(op) > 0
    requires Whole(op.now) && Whole(p.window) && (w > 0 ==> windowMs <= w) && name !in log.names
    ensures Step(server, op, name, skew).1 == F.Step(h, op, Redis).1
    ensures KeyAgrees(Step(server, op, name, skew).0, F.Step(h, op, Redis).0, op.key, Append(log, op, name),
                      windowMs, ms, skew)
  {
    AllowIsEval(server, op, ms, p, windowMs, name, skew);
    EvalMirrors(server, op.key, log.hist, log.names, w, now, ms, windowMs, p.limit, name, skew,
                Step(server, op, name, skew).0, Extended(log.hist, ms, windowMs, p.limit),
                ExtendedNames(log.hist, log.names, ms, windowMs, p.limit, name));
    DecisionsAgree(server, op.key, ms + skew, op.now, log.hist, ms, p, windowMs, name);
    AllowAnswer(server, op, ms, p, name, skew, F.Decide(Redis, ToNs(log.hist), op.now, p).1);
    AllowHistory(h, op, log, name);
  }

  lemma OwnKeyStep(server: R.Server, h: F.History, op: M.Op, log: Log, w: int, now: int, name: string, skew: int)
    requires !op.CleanupOp? && KeyAgrees(server, h, op.key, log, w, now, skew) && now <= R.ToMs(op.now)
    requires Whole(op.now) && Whole(op.policy.Normalize().window) && WindowMs(op) > 0 && (w > 0 ==> WindowMs(op) <= w)
    requires op.AllowOp? ==> name !in log.names
    ensures Step(server, op, name, skew).1 == F.Step(h, op, Redis).1
    ensures KeyAgrees(Step(server, op, name, skew).0, F.Step(h, op, Redis).0, op.key,
                      if op.AllowOp? then Append(log, op, name) else log, WindowMs(op), R.ToMs(op.now), skew)
  {
    if op.AllowOp? {
      AllowKeyStep(server, h, op, log, w, now, name, skew, R.ToMs(op.now), op.policy.Normalize(), WindowMs(op));
    } else {
      PeekStep(server, h, op, log, w, now, name, skew);
      PeekKeepsMirror(server, op.key, log.hist, log.names, w, now, WindowMs(op), R.ToMs(op.now), skew);
    }
  }

  lemma OtherKeyStep(server: R.Server, h: F.History, op: M.Op, key: string, log: Log, w: int, now: int, name: string,
                     skew: int)
    requires op.CleanupOp? || op.key != key
    requires KeyAgrees(server, h, key, log, w, now, skew) && now <= R.ToMs(op.now)
    ensures KeyAgrees(Step(server, op, name, skew).0, F.Step(h, op, Redis).0, key, log, w, R.ToMs(op.now), skew)
  {
    if key in server { MirrorsLater(server[key], log.hist, log.names, w, now, w, R.ToMs(op.now), skew); }
    assert key in server <==> key in Step(server, op, name, skew).0;
  }

  /** The window last used on a key, in milliseconds. */
  function LastWindowMs(ops: seq<M.Op>, key: string): int {
    R.ToMs(F.LastWindow(ops, key))
  }

  lemma WindowMsPositive(op: M.Op)
    requires !op.CleanupOp?
    ensures WindowMs(op) > 0
  {
  }

  lemma LastWindowMsBounds(ops: seq<M.Op>)
    requires F.InOrder(ops) && ops != [] && !ops[|ops| - 1].CleanupOp?
    ensures var op := ops[|ops| - 1];
            var w := LastWindowMs(ops[..|ops| - 1], op.key);
            w > 0 ==> WindowMs(op) <= w
  {
    F.LastWindowBounds(ops);
  }

  /** The key's state just before the last call of a run, in milliseconds. */
  ghost predicate AgreesBefore(ops: seq<M.Op>, names: seq<string>, key: string, skew: int)
    requires 0 < |ops| <= |names|
  {
    var rest := ops[..|ops| - 1];
    KeyAgrees(Run(rest, names, skew), F.Run(rest, Redis), key, LogOf(rest, names, key), LastWindowMs(rest, key),
              R.ToMs(F.Before(ops)), skew)
  }

  lemma WholePrefix(ops: seq<M.Op>, n: nat)
    requires F.InOrder(ops) && WholeCalls(ops) && n <= |ops|
    ensures F.InOrder(ops[..n]) && WholeCalls(ops[..n])
  {
  }

  lemma StepAgrees(server: R.Server, h: F.History, op: M.Op, key: string, log: Log, w: int, now: int, name: string,
                   skew: int, log': Log, w': int)
    requires KeyAgrees(server, h, key, log, w, now, skew) && now <= R.ToMs(op.now)
    requires Whole(op.now) && (op.AllowOp? ==> name !in log.names)
    requires !op.CleanupOp? ==> Whole(op.policy.Normalize().window)
    requires !op.CleanupOp? && op.key == key ==> w' == WindowMs(op) && (w > 0 ==> w' <= w)
    requires op.CleanupOp? || op.key != key ==> w' == w
    requires log' == if op.AllowOp? && op.key == key then Append(log, op, name) else log
    ensures KeyAgrees(Step(server, op, name, skew).0, F.Step(h, op, Redis).0, key, log', w', R.ToMs(op.now), skew)
  {
    if !op.CleanupOp? && op.key == key {
      WindowMsPositive(op);
      OwnKeyStep(server, h, op, log, w, now, name, skew);
    } else {
      OtherKeyStep(server, h, op, key, log, w, now, name, skew);
    }
  }

  /** No two requests carry the same name. */
  ghost predicate DistinctIds(ops: seq<M.Op>, names: seq<string>)
    requires |ops| <= |names|
  {
    forall i, j :: 0 <= i < j < |ops| && ops[i].AllowOp? && ops[j].AllowOp? ==> names[i] != names[j]
  }

  lemma FreshName(ops: seq<M.Op>, names: seq<string>, n: nat, key: string)
    requires n < |ops| <= |names| && DistinctIds(ops, names) && ops[n].AllowOp?
    ensures names[n] !in LogOf(ops[..n], names, key).names
  {
    LogNames(ops[..n], names, key);
  }

  lemma {:induction false} RunAgrees(ops: seq<M.Op>, names: seq<string>, key: string, skew: int)
    requires 0 < |ops| <= |names| && F.InOrder(ops) && WholeCalls(ops) && DistinctIds(ops, names)
    ensures AgreesBefore(ops, names, key, skew)
  {
    var n := |ops| - 1;
    if n > 0 {
      var rest := ops[..n];
      var op, first := rest[n - 1], rest[..n - 1];
      WholePrefix(ops, n);
      RunAgrees(rest, names, key, skew);
      assert op == ops[n - 1] && first == ops[..n - 1];
      if op.AllowOp? { FreshName(ops, names, n - 1, key); }
      assert F.Before(rest) <= op.now;
      if !op.CleanupOp? && op.key == key { LastWindowMsBounds(rest); }
      StepAgrees(Run(first, names, skew), F.Run(first, Redis), op, key, LogOf(first, names, key),
                 LastWindowMs(first, key), R.ToMs(F.Before(rest)), names[n - 1], skew,
                 LogOf(rest, names, key), LastWindowMs(rest, key));
    }
  }

  /** Every reply of the Redis limiter is the one the limiter with full history gives: what the key's
      expiry or the script's trimming drops is never missed. */
  lemma NamedRefinesFullHistory(ops: seq<M.Op>, names: seq<string>, skew: int)
    requires 0 < |ops| <= |names| && F.InOrder(ops) && WholeCalls(ops) && DistinctIds(ops, names)
    ensures LastReply(ops, names, skew) == F.LastReply(ops, Redis)
  {
    var n := |ops| - 1;
    var op, rest := ops[n], ops[..n];
    if !op.CleanupOp? {
      RunAgrees(ops, names, op.key, skew);
      LastWindowMsBounds(ops);
      WindowMsPositive(op);
      if op.AllowOp? { FreshName(ops, names, n, op.key); }
      assert F.Before(ops) <= op.now;
      OwnKeyStep(Run(rest, names, skew), F.Run(rest, Redis), op, LogOf(rest, names, op.key),
                 LastWindowMs(rest, op.key), R.ToMs(F.Before(ops)), names[n], skew);
    }
  }

  /** The same reply, coming from the other backend. */
  function FromRedis(r: M.Reply): M.Reply {
    if r.Decided? then M.Decided(r.decision.(backend := Redis)) else r
  }

  lemma {:induction false} HistoryIgnoresBackend(ops: seq<M.Op>)
    ensures F.Run(ops, Redis) == F.Run(ops, Memory)
  {
    if ops != [] { HistoryIgnoresBackend(ops[..|ops| - 1]); }
  }

  lemma NamedBisimilar(ops: seq<M.Op>, names: seq<string>, skew: int, minTTL: int)
    requires 0 < |ops| <= |names| && F.InOrder(ops) && WholeCalls(ops) && DistinctIds(ops, names)
    ensures LastReply(ops, names, skew) == FromRedis(M.LastReply(ops, minTTL))
  {
    NamedRefinesFullHistory(ops, names, skew);
    F.RefinesFullHistory(ops, minTTL);
    HistoryIgnoresBackend(ops[..|ops| - 1]);
  }

  // ---------------------------------------------------------------- the limiter's own names

  /** Runs after 1970 in which call number i is made by the instance who[i], no instance id has a dash
      and none makes more than 2^64 requests. */
  ghost predicate Named(ops: seq<M.Op>, who: seq<string>) {
    && |who| == |ops|
    && (forall i :: 0 <= i < |ops| ==> ops[i].now >= 0 && '-' !in who[i])
    && forall i :: 0 <= i < |ops| ==> Members.CallsBy(Asks(ops, who), |ops|, who[i]) <= Members.COUNTER_RANGE
  }

  function Asks(ops: seq<M.Op>, who: seq<string>): (run: seq<Members.Ask>)
    requires |who| == |ops|
    ensures |run| == |ops|
  {
    seq(|ops|, i requires 0 <= i < |ops| =>
      if ops[i].AllowOp? && ops[i].now >= 0 then Members.Call(who[i], ops[i].now) else Members.NoCall)
  }

  /** The names the instances give to their requests. */
  function OwnNames(ops: seq<M.Op>, who: seq<string>): (names: seq<string>)
    requires |who| == |ops|
    ensures |names| == |ops|
  {
    var run := Asks(ops, who);
    seq(|ops|, i requires 0 <= i < |ops| => if run[i].Call? then Members.NameOf(run, i) else "")
  }

  lemma OwnNamesDistinct(ops: seq<M.Op>, who: seq<string>)
    requires Named(ops, who)
    ensures DistinctIds(ops, OwnNames(ops, who))
  {
    var names, run := OwnNames(ops, who), Asks(ops, who);
    forall i, j | 0 <= i < j < |ops| && ops[i].AllowOp? && ops[j].AllowOp? ensures names[i] != names[j] {
      Members.NamesAreDistinct(run, i, j);
    }
  }

  // ---------------------------------------------------------------- any instants

  /** `ms` is the last whole millisecond not after `t`. */
  predicate CutTo(ms: int, t: int) {
    ms % MILLISECOND == 0 && ms <= t < ms + MILLISECOND
  }

  /** The same call at the whole millisecond it falls into, its window cut to whole milliseconds. */
  predicate IsCut(cut: M.Op, op: M.Op) {
    && CutTo(cut.now, op.now)
    && match op
       case CleanupOp(_) => cut.CleanupOp?
       case AllowOp(_, key, policy) => cut.AllowOp? && cut.key == key && PolicyCut(cut.policy, policy)
       case PeekOp(_, key, policy) => cut.PeekOp? && cut.key == key && PolicyCut(cut.policy, policy)
  }

  predicate PolicyCut(cut: Policy, policy: Policy) {
    && cut.Normalize().limit == policy.Normalize().limit
    && CutTo(cut.Normalize().window, policy.Normalize().window)
  }

  ghost predicate AreCuts(cuts: seq<M.Op>, ops: seq<M.Op>) {
    |cuts| == |ops| && forall i :: 0 <= i < |ops| ==> IsCut(cuts[i], ops[i])
  }

  /** Every call has a cut. */
  function Cut(op: M.Op): (cut: M.Op)
    ensures IsCut(cut, op)
  {
    var now := op.now - op.now % MILLISECOND;
    match op
    case CleanupOp(_) => M.CleanupOp(now)
    case AllowOp(_, key, policy) => M.AllowOp(now, key, CutPolicy(policy))
    case PeekOp(_, key, policy) => M.PeekOp(now, key, CutPolicy(policy))
  }

  function CutPolicy(policy: Policy): (cut: Policy)
    ensures PolicyCut(cut, policy)
  {
    var p := policy.Normalize();
    var cut := Policy(p.limit, p.window - p.window % MILLISECOND);
    assert cut.Enforceable();
    cut
  }

  lemma CutKeepsMs(ms: int, t: int)
    requires CutTo(ms, t)
    ensures R.ToMs(ms) == R.ToMs(t) && Whole(ms)
  {
    R.RoundsDown(ms);
    R.RoundsDown(t);
  }

  lemma CutKeepsOrder(a: int, b: int, s: int, t: int)
    requires CutTo(a, s) && CutTo(b, t) && s <= t
    ensures a <= b
  {
    CutKeepsMs(a, s);
    CutKeepsMs(b, t);
  }

  lemma CutsInOrder(cuts: seq<M.Op>, ops: seq<M.Op>)
    requires AreCuts(cuts, ops) && F.InOrder(ops)
    ensures F.InOrder(cuts) && WholeCalls(cuts)
  {
    forall i | 0 <= i < |cuts|
      ensures Whole(cuts[i].now) && (!cuts[i].CleanupOp? ==> Whole(cuts[i].policy.Normalize().window))
    {
      assert IsCut(cuts[i], ops[i]);
      CutKeepsMs(cuts[i].now, ops[i].now);
      if !ops[i].CleanupOp? { CutKeepsMs(cuts[i].policy.Normalize().window, ops[i].policy.Normalize().window); }
    }
    forall i, j | 0 <= i < j < |cuts|
      ensures cuts[i].now <= cuts[j].now
      ensures F.OnSameKey(cuts[i], cuts[j]) ==> cuts[j].policy.Normalize().window <= cuts[i].policy.Normalize().window
    {
      PairInOrder(cuts[i], cuts[j], ops[i], ops[j]);
    }
  }

  lemma PairInOrder(a: M.Op, b: M.Op, c: M.Op, d: M.Op)
    requires IsCut(a, c) && IsCut(b, d) && c.now <= d.now
    requires F.OnSameKey(c, d) ==> d.policy.Normalize().window <= c.policy.Normalize().window
    ensures a.now <= b.now
    ensures F.OnSameKey(a, b) ==> b.policy.Normalize().window <= a.policy.Normalize().window
  {
    CutKeepsOrder(a.now, b.now, c.now, d.now);
    if F.OnSameKey(a, b) {
      CutKeepsOrder(b.policy.Normalize().window, a.policy.Normalize().window, d.policy.Normalize().window,
                    c.policy.Normalize().window);
    }
  }

  /** A reply to a call, told from the reply to its cut: the window is the caller's own, and the reset
      time is counted from the caller's own instant. */
  ghost predicate Corresponds(op: M.Op, r: M.Reply, cut: M.Reply) {
    match r
    case Decided(d) =>
      && op.AllowOp? && cut.Decided?
      && d.window == op.policy.Normalize().window && d.resetAt == op.now + d.retryAfter
      && d == cut.decision.(window := d.window, resetAt := d.resetAt)
    case _ => r == cut
  }

  /** The script is sent the same numbers for a call and for its cut. */
  lemma CutAllow(server: R.Server, op: M.Op, cut: M.Op, name: string, skew: int)
    requires IsCut(cut, op) && op.AllowOp?
    ensures Step(server, op, name, skew).0 == Step(server, cut, name, skew).0
    ensures Corresponds(op, Step(server, op, name, skew).1, Step(server, cut, name, skew).1)
  {
    var p, p', clock := op.policy.Normalize(), cut.policy.Normalize(), R.ToMs(op.now) + skew;
    var d, d' := R.Decide(server, op.key, clock, op.now, p, name), R.Decide(server, op.key, clock, cut.now, p', name);
    CutKeepsMs(cut.now, op.now);
    CutKeepsMs(p'.window, p.window);
    SameNumbers(server, op.key, clock, op.now, cut.now, p, p', name, d, d');
    StepDecides(server, op, clock, name, skew, d);
    StepDecides(server, cut, clock, name, skew, d');
  }

  lemma StepDecides(server: R.Server, op: M.Op, clock: int, name: string, skew: int, d: (R.Server, Decision))
    requires op.AllowOp? && clock == R.ToMs(op.now) + skew
    requires d == R.Allow(server, op.key, clock, op.now, op.policy, name)
    ensures Step(server, op, name, skew) == (d.0, M.Decided(d.1))
  {
  }

  lemma SameNumbers(server: R.Server, key: string, clock: int, now: int, cut: int, p: Policy, p': Policy, name: string,
                    d: (R.Server, Decision), d': (R.Server, Decision))
    requires R.ToMs(now) == R.ToMs(cut) && R.ToMs(p.window) == R.ToMs(p'.window) && p.limit == p'.limit
    requires d == R.Decide(server, key, clock, now, p, name) && d' == R.Decide(server, key, clock, cut, p', name)
    ensures && d.0 == d'.0 && d.1.window == p.window && d.1.resetAt == now + d.1.retryAfter
            && d.1 == d'.1.(window := d.1.window, resetAt := d.1.resetAt)
  {
  }

  /** A window's fraction of a millisecond does not reach back into one more millisecond. */
  predicate NoStraddle(op: M.Op) {
    op.PeekOp? ==> op.policy.Normalize().window % MILLISECOND <= op.now % MILLISECOND
  }

  lemma CutPeek(server: R.Server, op: M.Op, cut: M.Op, name: string, skew: int)
    requires IsCut(cut, op) && op.PeekOp? && NoStraddle(op)
    ensures Step(server, op, name, skew).1 == Step(server, cut, name, skew).1
  {
    var w, w' := op.policy.Normalize().window, cut.policy.Normalize().window;
    CutKeepsMs(cut.now, op.now);
    CutKeepsMs(w', w);
    CutKeepsMs(cut.now - w', op.now - w);
  }

  lemma CutStep(server: R.Server, op: M.Op, cut: M.Op, name: string, skew: int)
    requires IsCut(cut, op)
    ensures Step(server, op, name, skew).0 == Step(server, cut, name, skew).0
    ensures NoStraddle(op) ==> Corresponds(op, Step(server, op, name, skew).1, Step(server, cut, name, skew).1)
  {
    if op.AllowOp? {
      CutAllow(server, op, cut, name, skew);
    } else if op.PeekOp? && NoStraddle(op) {
      CutPeek(server, op, cut, name, skew);
    }
  }

  /** The set is the same after a run and after its cut. */
  lemma {:induction false} CutRun(ops: seq<M.Op>, cuts: seq<M.Op>, names: seq<string>, skew: int)
    requires AreCuts(cuts, ops) && |ops| <= |names|
    ensures Run(ops, names, skew) == Run(cuts, names, skew)
  {
    if ops != [] {
      var n := |ops| - 1;
      CutRun(ops[..n], cuts[..n], names, skew);
      CutStep(Run(ops[..n], names, skew), ops[n], cuts[n], names[n], skew);
    }
  }

  lemma CutReply(ops: seq<M.Op>, cuts: seq<M.Op>, names: seq<string>, skew: int)
    requires AreCuts(cuts, ops) && 0 < |ops| <= |names| && NoStraddle(ops[|ops| - 1])
    ensures Corresponds(ops[|ops| - 1], LastReply(ops, names, skew), LastReply(cuts, names, skew))
  {
    var n := |ops| - 1;
    CutRun(ops[..n], cuts[..n], names, skew);
    CutStep(Run(ops[..n], names, skew), ops[n], cuts[n], names[n], skew);
  }

  lemma CutNames(ops: seq<M.Op>, cuts: seq<M.Op>, names: seq<string>)
    requires AreCuts(cuts, ops) && |ops| <= |names| && DistinctIds(ops, names)
    ensures DistinctIds(cuts, names)
  {
    forall i, j | 0 <= i < j < |cuts| && cuts[i].AllowOp? && cuts[j].AllowOp? ensures names[i] != names[j] {
      assert IsCut(cuts[i], ops[i]) && IsCut(cuts[j], ops[j]);
    }
  }

  /** Every reply of the Redis limiter, at whatever instant, is the one the limiter with full history
      gives to the call cut to whole milliseconds: what the key's expiry or the script's trimming drops
      is never missed. */
  lemma RedisRefinesFullHistory(ops: seq<M.Op>, cuts: seq<M.Op>, who: seq<string>, skew: int)
    requires ops != [] && F.InOrder(ops) && Named(ops, who) && AreCuts(cuts, ops) && NoStraddle(ops[|ops| - 1])
    ensures Corresponds(ops[|ops| - 1], LastReply(ops, OwnNames(ops, who), skew), F.LastReply(cuts, Redis))
  {
    var names := OwnNames(ops, who);
    OwnNamesDistinct(ops, who);
    CutNames(ops, cuts, names);
    CutsInOrder(cuts, ops);
    CutReply(ops, cuts, names, skew);
    NamedRefinesFullHistory(cuts, names, skew);
  }

  /** The backends are bisimilar: in every run with windows that never grow on a key, whichever
      instances make the calls and whatever the janitor's bound and the clock skew of the server, Redis
      gives the Allowed, Limit, Used, Remaining and RetryAfter that the in-memory limiter gives to the
      calls cut to whole milliseconds, and counts ResetAt from the caller's own instant. */
  lemma Bisimilar(ops: seq<M.Op>, cuts: seq<M.Op>, who: seq<string>, skew: int, minTTL: int)
    requires ops != [] && F.InOrder(ops) && Named(ops, who) && AreCuts(cuts, ops) && NoStraddle(ops[|ops| - 1])
    ensures Corresponds(ops[|ops| - 1], LastReply(ops, OwnNames(ops, who), skew),
                        FromRedis(M.LastReply(cuts, minTTL)))
  {
    var names := OwnNames(ops, who);
    OwnNamesDistinct(ops, who);
    CutNames(ops, cuts, names);
    CutsInOrder(cuts, ops);
    CutReply(ops, cuts, names, skew);
    NamedBisimilar(cuts, names, skew, minTTL);
  }
}
