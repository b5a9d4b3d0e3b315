/** How long a key's log gets: internal/limiter/memory.go. The comment on `memEntry` has it that a log
    never exceeds the policy's limit. It may, once the limit has been lowered; this is exactly when. */
module LogSize {
  import opened Policies
  import opened SlidingWindow
  import M = MemoryModel
  import F = FullHistory
  import G = Guarantees
  import H = Horizon

  /** A key's log holds at most `limit` hits after a run. */
  ghost predicate WithinLimit(ops: seq<M.Op>, key: string, limit: nat, minTTL: int) {
    key in M.Run(ops, minTTL) && |M.Run(ops, minTTL)[key].hits| <= limit
  }

  // ---------------------------------------------------------------- a run that breaks it

  const TWO := Policy(2, SECOND)
  const ONE := Policy(1, SECOND)

  lemma OneAllow(t: M.Table, key: string, p: Policy, hits: seq<int>, t': M.Table, minTTL: int)
    requires (p == TWO || p == ONE) && M.Acquire(t, key).hits == hits
    requires hits == [] || hits[0] > -SECOND
    requires t' == M.Step(t, M.AllowOp(0, key, p), minTTL).0
    ensures key in t' && !t'[key].dead && t'[key].hits == if |hits| < p.limit then hits + [0] else hits
  {
    PruneShape(hits, -SECOND);
    assert Prune(hits, -SECOND) == hits;
  }

  lemma OneMore(ops: seq<M.Op>, key: string, p: Policy, hits: seq<int>, t: M.Table, t': M.Table, minTTL: int)
    requires (p == TWO || p == ONE) && t == M.Run(ops, minTTL) && M.Acquire(t, key).hits == hits
    requires hits == [] || hits[0] > -SECOND
    requires t' == M.Run(ops + [M.AllowOp(0, key, p)], minTTL)
    ensures key in t' && !t'[key].dead && t'[key].hits == if |hits| < p.limit then hits + [0] else hits
  {
    F.RunSnoc(ops, M.AllowOp(0, key, p), minTTL, Memory);
    OneAllow(t, key, p, hits, t', minTTL);
  }

  /** Two requests under a limit of two and one, denied, under a limit of one, all at one instant. */
  function Lowered(key: string): seq<M.Op> {
    TwoAdmitted(key) + [M.AllowOp(0, key, ONE)]
  }

  function TwoAdmitted(key: string): seq<M.Op> {
    ([] + [M.AllowOp(0, key, TWO)]) + [M.AllowOp(0, key, TWO)]
  }

  lemma AfterTwo(key: string, t: M.Table, minTTL: int)
    requires t == M.Run(TwoAdmitted(key), minTTL)
    ensures key in t && !t[key].dead && t[key].hits == [0] + [0]
  {
    var t1 := M.Run([] + [M.AllowOp(0, key, TWO)], minTTL);
    OneMore([], key, TWO, [], map[], t1, minTTL);
    assert [] + [0] == [0];
    OneMore([] + [M.AllowOp(0, key, TWO)], key, TWO, [0], t1, t, minTTL);
  }

  /** A log may exceed the limit of the policy in force. */
  lemma LoweredLimitIsExceeded(key: string, minTTL: int)
    ensures F.InOrder(Lowered(key)) && Lowered(key)[|Lowered(key)| - 1] == M.AllowOp(0, key, ONE)
    ensures !WithinLimit(Lowered(key), key, ONE.limit, minTTL)
  {
    var t := M.Run(TwoAdmitted(key), minTTL);
    AfterTwo(key, t, minTTL);
    OneMore(TwoAdmitted(key), key, ONE, [0] + [0], t, M.Run(Lowered(key), minTTL), minTTL);
  }

  // ---------------------------------------------------------------- exactly when

  lemma DecideSize(e: M.Entry, now: int, p: Policy)
    requires p.Enforceable()
    ensures |M.Decide(e, now, p).0.hits| <= p.limit <==> |Prune(e.hits, now - p.window)| <= p.limit
  {
  }

  lemma {:induction false} NoneDead(ops: seq<M.Op>, minTTL: int, key: string)
    requires key in M.Run(ops, minTTL)
    ensures !M.Run(ops, minTTL)[key].dead
  {
    var n := |ops| - 1;
    if key in M.Run(ops[..n], minTTL) { NoneDead(ops[..n], minTTL, key); }
  }

  lemma AllowSize(t: M.Table, key: string, now: int, policy: Policy)
    requires key in t ==> !t[key].dead
    ensures key in M.Allow(t, key, now, policy).0
    ensures |M.Allow(t, key, now, policy).0[key].hits| <= policy.Normalize().limit
            <==> M.Peek(t, key, now, policy).1 <= policy.Normalize().limit
  {
    var p := policy.Normalize();
    DecideSize(M.Acquire(t, key).(lastSeen := now), now, p);
  }

  /** In every run, whatever clock, windows and limits: after an Allow the key's log is within the
      policy's limit if and only if a Peek under the same policy just before it reports no more than
      that limit. */
  lemma WithinLimitExactlyWhen(ops: seq<M.Op>, key: string, now: int, policy: Policy, minTTL: int)
    ensures WithinLimit(ops + [M.AllowOp(now, key, policy)], key, policy.Normalize().limit, minTTL)
            <==> M.LastReply(ops + [M.PeekOp(now, key, policy)], minTTL).used <= policy.Normalize().limit
  {
    var t := M.Run(ops, minTTL);
    F.RunSnoc(ops, M.AllowOp(now, key, policy), minTTL, Memory);
    F.RunSnoc(ops, M.PeekOp(now, key, policy), minTTL, Memory);
    if key in t { NoneDead(ops, minTTL, key); }
    AllowSize(t, key, now, policy);
  }

  /** The same, told from the calls alone, where the clock does not run backwards and windows do not
      grow: if and only if the key's admissions still in the window are no more than the limit. */
  lemma WithinLimitInOrder(ops: seq<M.Op>, key: string, now: int, policy: Policy, minTTL: int)
    requires F.InOrder(ops + [M.AllowOp(now, key, policy)])
    ensures var p := policy.Normalize();
            WithinLimit(ops + [M.AllowOp(now, key, policy)], key, p.limit, minTTL)
            <==> CountAfter(F.Admitted(F.Run(ops, Memory), key), now - p.window) <= p.limit
  {
    var log := F.Admitted(F.Run(ops, Memory), key);
    var used := CountAfter(log, now - policy.Normalize().window);
    WithinLimitExactlyWhen(ops, key, now, policy, minTTL);
    PeekCounts(ops, key, now, policy, minTTL, used);
  }

  lemma PeekCounts(ops: seq<M.Op>, key: string, now: int, policy: Policy, minTTL: int, used: nat)
    requires F.InOrder(ops + [M.AllowOp(now, key, policy)])
    requires used == CountAfter(F.Admitted(F.Run(ops, Memory), key), now - policy.Normalize().window)
    ensures M.LastReply(ops + [M.PeekOp(now, key, policy)], minTTL) == M.Used(used)
  {
    var peek := M.PeekOp(now, key, policy);
    PeekInOrder(ops, M.AllowOp(now, key, policy), peek);
    ReplyFromHistory(ops, peek, ops + [peek], M.Used(used), minTTL);
  }

  lemma ReplyFromHistory(ops: seq<M.Op>, op: M.Op, all: seq<M.Op>, r: M.Reply, minTTL: int)
    requires all == ops + [op] && F.InOrder(all) && F.Step(F.Run(ops, Memory), op, Memory).1 == r
    ensures M.LastReply(all, minTTL) == r
  {
    F.RefinesFullHistory(all, minTTL);
    F.RunSnoc(ops, op, minTTL, Memory);
  }

  lemma PeekInOrder(ops: seq<M.Op>, op: M.Op, peek: M.Op)
    requires F.InOrder(ops + [op]) && op.AllowOp? && peek == M.PeekOp(op.now, op.key, op.policy)
    ensures F.InOrder(ops + [peek])
  {
    var a, b := ops + [op], ops + [peek];
    forall i, j | 0 <= i < j < |b|
      ensures b[i].now <= b[j].now
      ensures F.OnSameKey(b[i], b[j]) ==> b[j].policy.Normalize().window <= b[i].policy.Normalize().window
    {
      assert a[i] == b[i] && a[i].now <= a[j].now;
      assert F.OnSameKey(a[i], a[j]) ==> a[j].policy.Normalize().window <= a[i].policy.Normalize().window;
    }
  }

  // ---------------------------------------------------------------- windows of any width

  /** How many admissions lie beyond a horizon. */
  function Beyond(log: seq<int>, h: H.Horizon): nat {
    if h.Upto? then CountAfter(log, h.t) else |log|
  }

  lemma HoldsSize(hits: seq<int>, log: seq<int>, h: H.Horizon)
    requires H.Holds(hits, log, h)
    ensures |hits| == Beyond(log, h)
  {
    var n := |log| - |hits|;
    assert log == log[..n] + hits;
    assert n > 0 ==> H.Behind(log[0], h);
    if h.Upto? {
      CountAfterConcat(log[..n], hits, h.t);
      CountAfterNone(log[..n], h.t);
      CountAfterAll(hits, h.t);
    }
  }

  /** At every instant of every run with a nondecreasing clock, whatever windows and limits, a key's log
      holds exactly its admissions beyond the horizon its calls and the janitor have left. */
  lemma SizeInEveryRun(ops: seq<M.Op>, key: string, minTTL: int)
    requires H.ClockForward(ops) && key in M.Run(ops, minTTL)
    ensures |M.Run(ops, minTTL)[key].hits|
            == Beyond(G.Accepted(ops, key, minTTL), H.HorizonOf(ops, key, minTTL))
  {
    H.RunKnown(ops, key, minTTL, if ops == [] then 0 else ops[|ops| - 1].now);
    HoldsSize(M.Run(ops, minTTL)[key].hits, G.Accepted(ops, key, minTTL), H.HorizonOf(ops, key, minTTL));
  }

  // ---------------------------------------------------------------- limits that are never lowered

  /** The limit last enforced on a key. */
  function LastLimit(ops: seq<M.Op>, key: string): nat {
    if ops == [] then 0
    else
      var op := ops[|ops| - 1];
      if op.AllowOp? && op.key == key then op.policy.Normalize().limit else LastLimit(ops[..|ops| - 1], key)
  }

  ghost predicate NeverLowered(ops: seq<M.Op>, key: string) {
    forall i, j :: 0 <= i < j < |ops| && ops[i].AllowOp? && ops[j].AllowOp? && ops[i].key == ops[j].key == key ==>
      ops[i].policy.Normalize().limit <= ops[j].policy.Normalize().limit
  }

  lemma {:induction false} LastLimitIsUsed(ops: seq<M.Op>, key: string)
    ensures LastLimit(ops, key) == 0
            || exists i :: 0 <= i < |ops| && ops[i].AllowOp? && ops[i].key == key
                           && ops[i].policy.Normalize().limit == LastLimit(ops, key)
  {
    if ops != [] {
      var n := |ops| - 1;
      if !(ops[n].AllowOp? && ops[n].key == key) {
        LastLimitIsUsed(ops[..n], key);
        if LastLimit(ops[..n], key) != 0 {
          var i :| 0 <= i < n && ops[..n][i].AllowOp? && ops[..n][i].key == key
                   && ops[..n][i].policy.Normalize().limit == LastLimit(ops[..n], key);
          assert ops[i] == ops[..n][i];
        }
      }
    }
  }

  lemma {:induction false} LastIsLargest(ops: seq<M.Op>, key: string)
    requires NeverLowered(ops, key)
    ensures LastLimit(ops, key) == G.LargestLimit(ops, key)
  {
    if ops != [] {
      var n := |ops| - 1;
      LastIsLargest(ops[..n], key);
      if ops[n].AllowOp? && ops[n].key == key {
        LastLimitIsUsed(ops[..n], key);
        if LastLimit(ops[..n], key) != 0 {
          var i :| 0 <= i < n && ops[..n][i].AllowOp? && ops[..n][i].key == key
                   && ops[..n][i].policy.Normalize().limit == LastLimit(ops[..n], key);
          assert ops[i] == ops[..n][i];
        }
      }
    }
  }

  /** Where limits are never lowered on a key the comment is right: at every instant of every run, with
      any clock and any windows, the log is within the limit last enforced. */
  lemma NeverLoweredIsWithinLimit(ops: seq<M.Op>, key: string, minTTL: int)
    requires NeverLowered(ops, key) && key in M.Run(ops, minTTL)
    ensures WithinLimit(ops, key, LastLimit(ops, key), minTTL)
  {
    LastIsLargest(ops, key);
    G.LogsStayBounded(ops, minTTL, key);
  }
}
