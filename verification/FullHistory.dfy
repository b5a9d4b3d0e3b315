/** The reference limiter keeps every admission of every key for ever and counts those still in
    the window. The in-memory limiter prunes, shrinks and evicts, and cannot be told apart from it. */
module FullHistory {
  import opened Policies
  import opened SlidingWindow
  import M = MemoryModel

  type History = map<string, seq<int>>

  function Admitted(h: History, key: string): seq<int> {
    if key in h then h[key] else []
  }

  /** The decision when `used` stamps are in the window, the first of them `oldest` (or the
      request itself). */
  function Verdict(b: Backend, used: nat, oldest: int, now: int, p: Policy): Decision {
    if used >= p.limit then Deny(b, p, used, oldest + p.window, now)
    else
      Decision(true, p.limit, p.window, used + 1, p.limit - (used + 1), oldest + p.window, oldest + p.window - now, b)
  }

  function Oldest(hist: seq<int>, cutoff: int, now: int): int {
    if CountAfter(hist, cutoff) > 0 then FirstAfter(hist, cutoff) else now
  }

  /** A decision counted over the whole history of one key. */
  function Decide(b: Backend, hist: seq<int>, now: int, p: Policy): (seq<int>, Decision) {
    var used := CountAfter(hist, now - p.window);
    (if used < p.limit then hist + [now] else hist, Verdict(b, used, Oldest(hist, now - p.window, now), now, p))
  }

  function Step(h: History, op: M.Op, b: Backend): (History, M.Reply) {
    match op
    case AllowOp(now, key, policy) =>
      var r := Decide(b, Admitted(h, key), now, policy.Normalize());
      (h[key := r.0], M.Decided(r.1))
    case PeekOp(now, key, policy) =>
      (h, M.Used(CountAfter(Admitted(h, key), now - policy.Normalize().window)))
    case CleanupOp(now) =>
      (h, M.Done)
  }

  function Run(ops: seq<M.Op>, b: Backend): History {
    if ops == [] then map[] else Step(Run(ops[..|ops| - 1], b), ops[|ops| - 1], b).0
  }

  function LastReply(ops: seq<M.Op>, b: Backend): M.Reply
    requires ops != []
  {
    Step(Run(ops[..|ops| - 1], b), ops[|ops| - 1], b).1
  }

  predicate OnSameKey(a: M.Op, b: M.Op) {
    !a.CleanupOp? && !b.CleanupOp? && a.key == b.key
  }

  /** The clock never runs backwards and no key's window grows. Limits may change freely. */
  ghost predicate InOrder(ops: seq<M.Op>) {
    forall i, j :: 0 <= i < j < |ops| ==>
      && ops[i].now <= ops[j].now
      && (OnSameKey(ops[i], ops[j]) ==> ops[j].policy.Normalize().window <= ops[i].policy.Normalize().window)
  }

  /** The window last used on a key, zero before its first call. */
  function LastWindow(ops: seq<M.Op>, key: string): (w: int)
    ensures w >= 0
  {
    if ops == [] then 0
    else
      var op := ops[|ops| - 1];
      if !op.CleanupOp? && op.key == key then op.policy.Normalize().window
      else LastWindow(ops[..|ops| - 1], key)
  }

  lemma {:induction false} LastWindowIsUsed(ops: seq<M.Op>, key: string)
    requires LastWindow(ops, key) > 0
    ensures exists i :: 0 <= i < |ops| && !ops[i].CleanupOp? && ops[i].key == key
                        && ops[i].policy.Normalize().window == LastWindow(ops, key)
  {
    var n := |ops| - 1;
    if ops[n].CleanupOp? || ops[n].key != key {
      LastWindowIsUsed(ops[..n], key);
      var i :| 0 <= i < n && !ops[..n][i].CleanupOp? && ops[..n][i].key == key
               && ops[..n][i].policy.Normalize().window == LastWindow(ops[..n], key);
      assert ops[i] == ops[..n][i];
    }
  }

  function LastNow(ops: seq<M.Op>, before: int): int {
    if ops == [] then before else ops[|ops| - 1].now
  }

  /** `hits` is what is left of `hist` after dropping stamps no later than `bound`. */
  ghost predicate Suffix(hits: seq<int>, hist: seq<int>, bound: int) {
    && |hits| <= |hist|
    && (forall i :: 0 <= i < |hits| ==> hits[i] == hist[|hist| - |hits| + i])
    && (forall i :: 0 <= i < |hist| - |hits| ==> hist[i] <= bound)
  }

  /** The abstraction relation for one key at instant `now`, when no later call uses a window
      above `w`: the live hits are a suffix of the history and everything missing has expired. */
  ghost predicate Related(e: M.Entry, hist: seq<int>, w: int, now: int) {
    && !e.dead
    && Suffix(e.hits, hist, now - w)
    && w <= e.window
    && AllAtMost(hist, e.lastSeen)
    && e.lastSeen <= now
  }

  ghost predicate KeyRelated(t: M.Table, key: string, hist: seq<int>, w: int, now: int) {
    && Ascending(hist)
    && AllAtMost(hist, now)
    && 0 <= w
    && (w == 0 ==> hist == [] && key !in t)
    && if key in t then Related(t[key], hist, w, now) else AllAtMost(hist, now - w)
  }

  lemma PruneKeepsSuffix(hits: seq<int>, hist: seq<int>, bound: int, cutoff: int)
    requires Suffix(hits, hist, bound)
    ensures Suffix(Prune(hits, cutoff), hist, if bound <= cutoff then cutoff else bound)
  {
    PruneShape(hits, cutoff);
    var r, m := Prune(hits, cutoff), |hist| - |hits|;
    forall i | 0 <= i < |hist| - |r| ensures hist[i] <= bound || hist[i] <= cutoff {
      if i >= m { assert hist[i] == hits[i - m]; }
    }
  }

  /** Pruning a suffix leaves exactly the hits the full history would count. */
  lemma PruneSuffix(hits: seq<int>, hist: seq<int>, bound: int, cutoff: int)
    requires Ascending(hist) && Suffix(hits, hist, bound) && bound <= cutoff
    ensures var r := Prune(hits, cutoff);
            && Suffix(r, hist, cutoff)
            && |r| == CountAfter(hist, cutoff)
            && (r != [] ==> r[0] == FirstAfter(hist, cutoff) > cutoff)
  {
    PruneShape(hits, cutoff);
    PruneKeepsSuffix(hits, hist, bound, cutoff);
    var r := Prune(hits, cutoff);
    if r != [] { assert hist[|hist| - |r|] == r[0]; }
    SuffixCount(hist, |hist| - |r|, cutoff);
  }

  lemma SuffixCount(hist: seq<int>, n: nat, cutoff: int)
    requires Ascending(hist) && n <= |hist|
    requires forall i :: 0 <= i < n ==> hist[i] <= cutoff
    requires n < |hist| ==> hist[n] > cutoff
    ensures CountAfter(hist, cutoff) == |hist| - n
    ensures n < |hist| ==> FirstAfter(hist, cutoff) == hist[n]
  {
    assert hist == hist[..n] + hist[n..];
    CountAfterConcat(hist[..n], hist[n..], cutoff);
    CountAfterNone(hist[..n], cutoff);
    CountAfterAll(hist[n..], cutoff);
    if n < |hist| { FirstAfterSuffix(hist, n, cutoff); }
  }

  lemma {:induction false} FirstAfterSuffix(hist: seq<int>, n: nat, cutoff: int)
    requires n < |hist| && hist[n] > cutoff
    requires AllAtMost(hist[..n], cutoff)
    ensures CountAfter(hist, cutoff) > 0 && FirstAfter(hist, cutoff) == hist[n]
  {
    var m := |hist| - 1;
    if n < m {
      assert hist[..m][..n] == hist[..n];
      FirstAfterSuffix(hist[..m], n, cutoff);
    } else {
      CountAfterNone(hist[..m], cutoff);
    }
  }

  /** The window's stamps are the last ones of an ascending log. */
  lemma WindowStart(log: seq<int>, cutoff: int, n: nat)
    requires Ascending(log) && CountAfter(log, cutoff) > 0 && n == |log| - CountAfter(log, cutoff)
    ensures n < |log| && log[n] == FirstAfter(log, cutoff)
    ensures forall i :: 0 <= i < n ==> log[i] <= cutoff
  {
    PruneShape(log, cutoff);
    PruneSuffix(log, log, cutoff, cutoff);
    assert log[n] == Prune(log, cutoff)[0];
  }

  lemma AppendSuffix(hits: seq<int>, hist: seq<int>, bound: int, now: int)
    requires Suffix(hits, hist, bound)
    ensures Suffix(hits + [now], hist + [now], bound)
  {
  }

  lemma DecideKeepsOrder(b: Backend, hist: seq<int>, now: int, p: Policy)
    requires p.Enforceable() && Ascending(hist) && AllAtMost(hist, now)
    ensures Ascending(Decide(b, hist, now, p).0) && AllAtMost(Decide(b, hist, now, p).0, now)
  {
  }

  /** The full history's decision, told from the hits that are left. */
  lemma DecideFromHits(hits: seq<int>, hist: seq<int>, now: int, p: Policy)
    requires |hits| == CountAfter(hist, now - p.window)
    requires hits != [] ==> hits[0] == FirstAfter(hist, now - p.window)
    ensures Decide(Memory, hist, now, p).1 == Verdict(Memory, |hits|, if hits != [] then hits[0] else now, now, p)
    ensures Decide(Memory, hist, now, p).0 == if |hits| < p.limit then hist + [now] else hist
  {
  }

  /** One critical section of Allow agrees with the full history and keeps the relation. */
  lemma DecideAgrees(e: M.Entry, hist: seq<int>, now: int, p: Policy)
    requires p.Enforceable()
    requires Ascending(hist) && AllAtMost(hist, now)
    requires Suffix(e.hits, hist, now - p.window)
    ensures M.Decide(e, now, p).1 == Decide(Memory, hist, now, p).1
    ensures Suffix(M.Decide(e, now, p).0.hits, Decide(Memory, hist, now, p).0, now - p.window)
  {
    var cutoff := now - p.window;
    var hits := Prune(e.hits, cutoff);
    PruneSuffix(e.hits, hist, cutoff, cutoff);
    VerdictAgrees(e, hits, now, p);
    DecideFromHits(hits, hist, now, p);
    if |hits| < p.limit {
      AppendSuffix(hits, hist, cutoff, now);
    }
  }

  /** The in-memory decision, told from the hits that are left. */
  lemma VerdictAgrees(e: M.Entry, hits: seq<int>, now: int, p: Policy)
    requires p.Enforceable() && hits == Prune(e.hits, now - p.window)
    requires hits != [] ==> hits[0] > now - p.window
    ensures M.Decide(e, now, p).1 == Verdict(Memory, |hits|, if hits != [] then hits[0] else now, now, p)
    ensures M.Decide(e, now, p).0.hits == if |hits| < p.limit then hits + [now] else hits
  {
  }

  lemma DecideKeepsRelated(e: M.Entry, hist: seq<int>, now: int, p: Policy)
    requires p.Enforceable()
    requires Ascending(hist) && AllAtMost(hist, now)
    requires Suffix(e.hits, hist, now - p.window)
    requires !e.dead && e.lastSeen == now
    ensures Related(M.Decide(e, now, p).0, Decide(Memory, hist, now, p).0, p.window, now)
  {
    DecideAgrees(e, hist, now, p);
    DecideKeepsOrder(Memory, hist, now, p);
    var e' := M.Decide(e, now, p).0;
    assert e' == e.(hits := e'.hits, window := p.window);
  }

  /** A call on another key, or a later instant, disturbs nothing. */
  lemma KeyUntouched(t: M.Table, t': M.Table, key: string, hist: seq<int>, w: int, now: int, now': int)
    requires KeyRelated(t, key, hist, w, now) && now <= now'
    requires key in t <==> key in t'
    requires key in t ==> t[key] == t'[key]
    ensures KeyRelated(t', key, hist, w, now')
  {
  }

  lemma AllowKeepsRelated(t: M.Table, key: string, hist: seq<int>, w: int, now: int, now': int, policy: Policy)
    requires KeyRelated(t, key, hist, w, now) && now <= now'
    requires w > 0 ==> policy.Normalize().window <= w
    ensures var p := policy.Normalize();
            && M.Allow(t, key, now', policy).1 == Decide(Memory, hist, now', p).1
            && KeyRelated(M.Allow(t, key, now', policy).0, key, Decide(Memory, hist, now', p).0, p.window, now')
  {
    var p := policy.Normalize();
    var e := M.Acquire(t, key).(lastSeen := now');
    assert Suffix(e.hits, hist, now' - p.window);
    DecideAgrees(e, hist, now', p);
    DecideKeepsRelated(e, hist, now', p);
    DecideKeepsOrder(Memory, hist, now', p);
    assert M.Allow(t, key, now', policy).0[key] == M.Decide(e, now', p).0;
  }

  lemma PeekKeepsRelated(t: M.Table, key: string, hist: seq<int>, w: int, now: int, now': int, policy: Policy)
    requires KeyRelated(t, key, hist, w, now) && now <= now'
    requires w > 0 ==> policy.Normalize().window <= w
    ensures M.Peek(t, key, now', policy).1 == CountAfter(hist, now' - policy.Normalize().window)
    ensures KeyRelated(M.Peek(t, key, now', policy).0, key, hist, policy.Normalize().window, now')
  {
    var cutoff := now' - policy.Normalize().window;
    if key in t {
      PruneSuffix(t[key].hits, hist, cutoff, cutoff);
    } else {
      CountAfterNone(hist, cutoff);
    }
  }

  /** Eviction is invisible: whatever the janitor drops has left every window still to be used. */
  lemma CleanupKeepsRelated(t: M.Table, key: string, hist: seq<int>, w: int, now: int, now': int, minTTL: int)
    requires KeyRelated(t, key, hist, w, now) && now <= now'
    ensures KeyRelated(M.Cleanup(t, now', minTTL), key, hist, w, now')
  {
    if key in t {
      var e := t[key];
      if M.Idle(e, now', minTTL) {
        assert key !in M.Cleanup(t, now', minTTL);
      } else {
        PruneKeepsSuffix(e.hits, hist, now' - w, now' - e.window);
      }
    }
  }

  lemma LastWindowBounds(ops: seq<M.Op>)
    requires InOrder(ops) && ops != [] && !ops[|ops| - 1].CleanupOp?
    ensures var op := ops[|ops| - 1];
            var w := LastWindow(ops[..|ops| - 1], op.key);
            w > 0 ==> op.policy.Normalize().window <= w
  {
    var n := |ops| - 1;
    if LastWindow(ops[..n], ops[n].key) > 0 {
      LastWindowIsUsed(ops[..n], ops[n].key);
      var i :| 0 <= i < n && !ops[..n][i].CleanupOp? && ops[..n][i].key == ops[n].key
               && ops[..n][i].policy.Normalize().window == LastWindow(ops[..n], ops[n].key);
      assert ops[..n][i] == ops[i];
      assert OnSameKey(ops[i], ops[n]);
    }
  }

  lemma InOrderPrefix(ops: seq<M.Op>, n: nat)
    requires InOrder(ops) && n <= |ops|
    ensures InOrder(ops[..n])
  {
  }

  lemma OwnKeyStep(t: M.Table, h: History, op: M.Op, w: int, now: int, minTTL: int)
    requires !op.CleanupOp? && now <= op.now
    requires KeyRelated(t, op.key, Admitted(h, op.key), w, now)
    requires w > 0 ==> op.policy.Normalize().window <= w
    ensures M.Step(t, op, minTTL).1 == Step(h, op, Memory).1
    ensures KeyRelated(M.Step(t, op, minTTL).0, op.key, Admitted(Step(h, op, Memory).0, op.key),
                       op.policy.Normalize().window, op.now)
  {
    if op.AllowOp? {
      AllowKeepsRelated(t, op.key, Admitted(h, op.key), w, now, op.now, op.policy);
    } else {
      PeekKeepsRelated(t, op.key, Admitted(h, op.key), w, now, op.now, op.policy);
    }
  }

  lemma OtherKeyStep(t: M.Table, h: History, op: M.Op, k: string, w: int, now: int, minTTL: int)
    requires op.CleanupOp? || op.key != k
    requires KeyRelated(t, k, Admitted(h, k), w, now) && now <= op.now
    ensures KeyRelated(M.Step(t, op, minTTL).0, k, Admitted(Step(h, op, Memory).0, k), w, op.now)
  {
    if op.CleanupOp? {
      CleanupKeepsRelated(t, k, Admitted(h, k), w, now, op.now, minTTL);
    } else {
      KeyUntouched(t, M.Step(t, op, minTTL).0, k, Admitted(h, k), w, now, op.now);
    }
  }

  /** The instant the run has reached just before its last call. */
  function Before(ops: seq<M.Op>): int
    requires ops != []
  {
    LastNow(ops[..|ops| - 1], ops[|ops| - 1].now)
  }

  /** Every key is related just before the last call of a run. */
  lemma {:induction false} RunRelated(ops: seq<M.Op>, minTTL: int)
    requires InOrder(ops) && ops != []
    ensures var n := |ops| - 1;
            forall k :: KeyRelated(M.Run(ops[..n], minTTL), k, Admitted(Run(ops[..n], Memory), k),
                                   LastWindow(ops[..n], k), Before(ops))
  {
    var n := |ops| - 1;
    if n > 0 {
      var rest := ops[..n];
      InOrderPrefix(ops, n);
      RunRelated(rest, minTTL);
      var t, h := M.Run(rest[..n - 1], minTTL), Run(rest[..n - 1], Memory);
      var op := rest[n - 1];
      forall k ensures KeyRelated(M.Run(rest, minTTL), k, Admitted(Run(rest, Memory), k), LastWindow(rest, k), op.now) {
        var w := LastWindow(rest[..n - 1], k);
        assert KeyRelated(t, k, Admitted(h, k), w, Before(rest));
        assert Before(rest) <= op.now;
        if !op.CleanupOp? && op.key == k {
          LastWindowBounds(rest);
          OwnKeyStep(t, h, op, w, Before(rest), minTTL);
        } else {
          OtherKeyStep(t, h, op, k, w, Before(rest), minTTL);
        }
      }
    }
  }

  /** Pruning, shrinking, eviction and the traffic of other keys cannot be observed: in every run,
      every call replies exactly what the limiter that remembers everything replies. (Apply it to
      each prefix of a run to obtain every reply.) */
  lemma RefinesFullHistory(ops: seq<M.Op>, minTTL: int)
    requires InOrder(ops) && ops != []
    ensures M.LastReply(ops, minTTL) == LastReply(ops, Memory)
  {
    var n := |ops| - 1;
    var op := ops[n];
    if !op.CleanupOp? {
      RunRelated(ops, minTTL);
      LastWindowBounds(ops);
      var t, h := M.Run(ops[..n], minTTL), Run(ops[..n], Memory);
      assert KeyRelated(t, op.key, Admitted(h, op.key), LastWindow(ops[..n], op.key), Before(ops));
      assert Before(ops) <= op.now;
      OwnKeyStep(t, h, op, LastWindow(ops[..n], op.key), Before(ops), minTTL);
    }
  }

  // ---------------------------------------------------------------- windows that grow

  lemma {:induction false} CountAfterSome(s: seq<int>, i: nat, cutoff: int)
    requires i < |s| && s[i] > cutoff
    ensures CountAfter(s, cutoff) > 0
  {
    if i < |s| - 1 { CountAfterSome(s[..|s| - 1], i, cutoff); }
  }

  /** What the entry still holds counts right for a window, of whatever width, exactly when nothing
      that was ever dropped from it lies in that window. A window that never grows guarantees this;
      one that grows need not. */
  lemma CountsExactlyWhen(hits: seq<int>, hist: seq<int>, cutoff: int)
    requires Ascending(hist) && |hits| <= |hist|
    requires forall i :: 0 <= i < |hits| ==> hits[i] == hist[|hist| - |hits| + i]
    ensures |Prune(hits, cutoff)| == CountAfter(hist, cutoff)
            <==> AllAtMost(hist[..|hist| - |hits|], cutoff)
  {
    var n := |hist| - |hits|;
    var dropped := hist[..n];
    assert hist == dropped + hits;
    CountAfterConcat(dropped, hits, cutoff);
    PruneSuffix(hits, hits, cutoff, cutoff);
    if AllAtMost(dropped, cutoff) {
      CountAfterNone(dropped, cutoff);
    } else {
      var i :| 0 <= i < n && dropped[i] > cutoff;
      CountAfterSome(dropped, i, cutoff);
    }
  }

  lemma RunSnoc(ops: seq<M.Op>, op: M.Op, minTTL: int, b: Backend)
    ensures M.Run(ops + [op], minTTL) == M.Step(M.Run(ops, minTTL), op, minTTL).0
    ensures Run(ops + [op], b) == Step(Run(ops, b), op, b).0
    ensures M.LastReply(ops + [op], minTTL) == M.Step(M.Run(ops, minTTL), op, minTTL).1
    ensures LastReply(ops + [op], b) == Step(Run(ops, b), op, b).1
  {
    assert (ops + [op])[..|ops|] == ops;
  }

  const NARROW := Policy(5, MILLISECOND)
  const WIDE := Policy(5, 10 * MILLISECOND)
  const LATER := 2 * MILLISECOND

  /** A narrow request on an entry whose one hit, if any, has left the window. */
  lemma NarrowStep(t: M.Table, h: History, key: string, hits: seq<int>, hist: seq<int>, now: int, t': M.Table,
                   h': History, minTTL: int)
    requires M.Acquire(t, key).hits == hits && (hits == [] || (|hits| == 1 && hits[0] <= now - MILLISECOND))
    requires Admitted(h, key) == hist && CountAfter(hist, now - MILLISECOND) == 0
    requires t' == M.Step(t, M.AllowOp(now, key, NARROW), minTTL).0
    requires h' == Step(h, M.AllowOp(now, key, NARROW), Memory).0
    ensures key in t' && !t'[key].dead && t'[key].hits == [now]
    ensures Admitted(h', key) == hist + [now]
  {
    assert Prune(hits, now - MILLISECOND) == [];
  }

  lemma WideStep(t: M.Table, h: History, key: string, hist: seq<int>, now: int, minTTL: int)
    requires key in t && t[key].hits == [now] && Admitted(h, key) == hist
    ensures M.Step(t, M.PeekOp(now, key, WIDE), minTTL).1 == M.Used(1)
    ensures Step(h, M.PeekOp(now, key, WIDE), Memory).1 == M.Used(CountAfter(hist, now - WIDE.window))
  {
  }

  lemma OneStamp(t: int, cutoff: int)
    ensures CountAfter([t], cutoff) == if t > cutoff then 1 else 0
  {
    CountAfterSnoc([], t, cutoff);
    assert [] + [t] == [t];
  }

  /** Two requests of a key, the second when the first has left the window. */
  function TwoNarrow(key: string): seq<M.Op> {
    [M.AllowOp(0, key, NARROW)] + [M.AllowOp(LATER, key, NARROW)]
  }

  lemma AfterTwoNarrow(key: string, t: M.Table, h: History, minTTL: int)
    requires t == M.Run(TwoNarrow(key), minTTL) && h == Run(TwoNarrow(key), Memory)
    ensures key in t && t[key].hits == [LATER] && Admitted(h, key) == [0] + [LATER]
  {
    var first, second := M.AllowOp(0, key, NARROW), M.AllowOp(LATER, key, NARROW);
    RunSnoc([], first, minTTL, Memory);
    assert [] + [first] == [first];
    var t1, h1 := M.Run([first], minTTL), Run([first], Memory);
    NarrowStep(map[], map[], key, [], [], 0, t1, h1, minTTL);
    assert [] + [0] == [0];
    OneStamp(0, LATER - MILLISECOND);
    RunSnoc([first], second, minTTL, Memory);
    NarrowStep(t1, h1, key, [0], [0], LATER, t, h, minTTL);
  }

  /** A window that grows can forget: the limiter has pruned a request that the wider window would
      still count. */
  lemma GrowingWindowForgets(key: string, minTTL: int)
    ensures var ops := TwoNarrow(key) + [M.PeekOp(LATER, key, WIDE)];
            M.LastReply(ops, minTTL) == M.Used(1) && LastReply(ops, Memory) == M.Used(2)
  {
    var t, h := M.Run(TwoNarrow(key), minTTL), Run(TwoNarrow(key), Memory);
    AfterTwoNarrow(key, t, h, minTTL);
    WideStep(t, h, key, [0] + [LATER], LATER, minTTL);
    OneStamp(0, LATER - WIDE.window);
    CountAfterSnoc([0], LATER, LATER - WIDE.window);
    RunSnoc(TwoNarrow(key), M.PeekOp(LATER, key, WIDE), minTTL, Memory);
  }
}
