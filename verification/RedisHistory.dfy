/** In every sequential run on a whole-millisecond clock the Redis limiter replies what the limiter
    with full history replies, and hence what the in-memory limiter replies. */
module RedisHistory {
  import opened Policies
  import opened SlidingWindow
  import opened R = RedisScript
  import F = FullHistory

  ghost predicate Distinct(names: seq<string>) {
    forall i, j :: 0 <= i < j < |names| ==> names[i] != names[j]
  }

  /** The members a set should hold: the stamps later than `a`, in milliseconds, by name. */
  function Tail(hist: seq<int>, names: seq<string>, a: int): map<string, int>
    requires |names| == |hist|
  {
    if hist == [] then map[]
    else
      var n := |hist| - 1;
      var earlier := Tail(hist[..n], names[..n], a);
      if hist[n] > a then earlier[names[n] := hist[n]] else earlier
  }

  lemma {:induction false} TailKeys(hist: seq<int>, names: seq<string>, a: int)
    requires |names| == |hist|
    ensures forall m :: m in Tail(hist, names, a) ==>
              exists i :: 0 <= i < |hist| && names[i] == m && hist[i] > a && Tail(hist, names, a)[m] == hist[i]
  {
    if hist != [] {
      var n := |hist| - 1;
      var earlier := Tail(hist[..n], names[..n], a);
      TailKeys(hist[..n], names[..n], a);
      forall m | m in Tail(hist, names, a)
        ensures exists i :: 0 <= i < |hist| && names[i] == m && hist[i] > a && Tail(hist, names, a)[m] == hist[i]
      {
        if !(hist[n] > a && m == names[n]) {
          var i :| 0 <= i < n && names[..n][i] == m && hist[..n][i] > a && earlier[m] == hist[..n][i];
          assert names[i] == m && hist[i] == hist[..n][i];
        }
      }
    }
  }

  lemma TailFresh(hist: seq<int>, names: seq<string>, a: int)
    requires |names| == |hist| > 0 && Distinct(names)
    ensures names[|hist| - 1] !in Tail(hist[..|hist| - 1], names[..|hist| - 1], a)
  {
    TailKeys(hist[..|hist| - 1], names[..|hist| - 1], a);
  }

  /** Distinct names make the set's size count the window. */
  lemma {:induction false} TailSize(hist: seq<int>, names: seq<string>, a: int)
    requires |names| == |hist| && Distinct(names)
    ensures |Tail(hist, names, a)| == CountAfter(hist, a)
  {
    if hist != [] {
      TailSize(hist[..|hist| - 1], names[..|hist| - 1], a);
      TailFresh(hist, names, a);
    }
  }

  /** Removing more is remembering less. */
  lemma {:induction false} TailRemove(hist: seq<int>, names: seq<string>, a: int, b: int)
    requires |names| == |hist| && Distinct(names) && a <= b
    ensures RemoveUpTo(Tail(hist, names, a), b) == Tail(hist, names, b)
  {
    if hist != [] {
      TailRemove(hist[..|hist| - 1], names[..|hist| - 1], a, b);
      TailFresh(hist, names, a);
    }
  }

  lemma {:induction false} TailHolds(hist: seq<int>, names: seq<string>, a: int, i: nat)
    requires |names| == |hist| && Distinct(names) && i < |hist| && hist[i] > a
    ensures names[i] in Tail(hist, names, a) && Tail(hist, names, a)[names[i]] == hist[i]
  {
    var n := |hist| - 1;
    if i < n {
      TailHolds(hist[..n], names[..n], a, i);
      assert names[i] == names[..n][i] && names[i] != names[n];
    }
  }

  /** No member of the set is older than the first stamp in the window. */
  lemma TailLow(hist: seq<int>, names: seq<string>, a: int, n: nat)
    requires |names| == |hist| && Ascending(hist) && n < |hist|
    requires forall i :: 0 <= i < n ==> hist[i] <= a
    ensures forall m :: m in Tail(hist, names, a) ==> hist[n] <= Tail(hist, names, a)[m]
  {
    var tail := Tail(hist, names, a);
    TailKeys(hist, names, a);
    forall m | m in tail ensures hist[n] <= tail[m] {
      var i :| 0 <= i < |hist| && names[i] == m && hist[i] > a && tail[m] == hist[i];
      assert n <= i && hist[n] <= hist[i];
    }
  }

  /** The oldest member is the first stamp in the window. */
  lemma TailOldest(hist: seq<int>, names: seq<string>, a: int)
    requires |names| == |hist| && Distinct(names) && Ascending(hist) && CountAfter(hist, a) > 0
    ensures Tail(hist, names, a) != map[] && LowestScore(Tail(hist, names, a)) == FirstAfter(hist, a)
  {
    var n := |hist| - CountAfter(hist, a);
    var tail := Tail(hist, names, a);
    F.WindowStart(hist, a, n);
    TailHolds(hist, names, a, n);
    TailLow(hist, names, a, n);
    var m :| m in tail && tail[m] == LowestScore(tail);
    assert hist[n] <= tail[m];
  }

  lemma {:induction false} TailNone(hist: seq<int>, names: seq<string>, a: int)
    requires |names| == |hist| && AllAtMost(hist, a)
    ensures Tail(hist, names, a) == map[]
  {
    if hist != [] { TailNone(hist[..|hist| - 1], names[..|hist| - 1], a); }
  }

  lemma TailSnoc(hist: seq<int>, names: seq<string>, t: int, name: string, a: int)
    requires |names| == |hist| && t > a
    ensures Tail(hist + [t], names + [name], a) == Tail(hist, names, a)[name := t]
  {
    assert (hist + [t])[..|hist|] == hist && (names + [name])[..|hist|] == names;
  }

  /** Well-formed bookkeeping for one key: its admissions and the names they carried. */
  ghost predicate Book(hist: seq<int>, names: seq<string>, now: int) {
    |names| == |hist| && Distinct(names) && Ascending(hist) && AllAtMost(hist, now)
  }

  lemma BookAppend(hist: seq<int>, names: seq<string>, now: int, name: string)
    requires Book(hist, names, now) && name !in names
    ensures Book(hist + [now], names + [name], now)
  {
  }

  /** The set under a key mirrors the key's history at instant `now`, when no later call uses a
      window above `w`: what is inside the window is there, and the key outlives it. */
  ghost predicate Mirrors(z: ZSet, hist: seq<int>, names: seq<string>, w: int, now: int, skew: int)
    requires |names| == |hist|
  {
    && RemoveUpTo(z.scores, now - w) == Tail(hist, names, now - w)
    && AllAtMost(hist, z.expireAt - skew - w)
  }

  /** All times in milliseconds; the server's clock is ahead of the callers' by `skew`. */
  ghost predicate KeyMirrors(server: Server, key: string, hist: seq<int>, names: seq<string>, w: int, now: int,
                             skew: int)
  {
    && Book(hist, names, now) && 0 <= w
    && (w == 0 ==> key !in server)
    && if key in server then Mirrors(server[key], hist, names, w, now, skew) else hist == []
  }

  lemma RemoveTwice(scores: map<string, int>, a: int, b: int)
    requires a <= b
    ensures RemoveUpTo(RemoveUpTo(scores, a), b) == RemoveUpTo(scores, b)
  {
  }

  /** A mirror stays one as time passes and windows shrink. */
  lemma MirrorsLater(z: ZSet, hist: seq<int>, names: seq<string>, w: int, now: int, w': int, now': int, skew: int)
    requires Book(hist, names, now) && Mirrors(z, hist, names, w, now, skew)
    requires now <= now' && w' <= w
    ensures Mirrors(z, hist, names, w', now', skew)
  {
    TailRemove(hist, names, now - w, now' - w');
    RemoveTwice(z.scores, now - w, now' - w');
  }

  /** What a command finds inside the window is what the history has there: PEXPIRE never takes a
      live member with it. */
  lemma FindTail(server: Server, key: string, hist: seq<int>, names: seq<string>, w: int, now: int, w': int, now': int,
                 skew: int)
    requires KeyMirrors(server, key, hist, names, w, now, skew)
    requires now <= now' && (w > 0 ==> w' <= w)
    ensures RemoveUpTo(Find(server, key, now' + skew), now' - w') == Tail(hist, names, now' - w')
  {
    if key in server {
      MirrorsLater(server[key], hist, names, w, now, w', now', skew);
      if now' + skew >= server[key].expireAt {
        TailNone(hist, names, now' - w');
      }
    }
  }

  /** The history after one decision, in milliseconds. */
  function Extended(hist: seq<int>, now: int, windowMs: int, limit: int): seq<int> {
    if CountAfter(hist, now - windowMs) < limit then hist + [now] else hist
  }

  function ExtendedNames(hist: seq<int>, names: seq<string>, now: int, windowMs: int, limit: int, name: string)
    : seq<string>
  {
    if CountAfter(hist, now - windowMs) < limit then names + [name] else names
  }

  /** The oldest stamp the reset time is counted from. */
  function Oldest(hist: seq<int>, now: int, windowMs: int): int {
    F.Oldest(hist, now - windowMs, now)
  }

  /** The set the script keeps and what it adds follow the history. */
  lemma CountedMirrors(hist: seq<int>, names: seq<string>, now: int, windowMs: int, limit: int, name: string,
                       hist': seq<int>, names': seq<string>)
    requires Book(hist, names, now) && name !in names && windowMs > 0
    requires hist' == Extended(hist, now, windowMs, limit)
    requires names' == ExtendedNames(hist, names, now, windowMs, limit, name)
    ensures Book(hist', names', now)
    ensures Counted(Tail(hist, names, now - windowMs), now, limit, name) == Tail(hist', names', now - windowMs)
  {
    TailSize(hist, names, now - windowMs);
    if CountAfter(hist, now - windowMs) < limit {
      TailSnoc(hist, names, now, name, now - windowMs);
      BookAppend(hist, names, now, name);
    }
  }

  /** The script's reply on a set that mirrors the window. */
  lemma ReplyMirrors(hist: seq<int>, names: seq<string>, now: int, windowMs: int, limit: int, name: string)
    requires Book(hist, names, now) && name !in names && windowMs > 0 && limit >= 1
    ensures ReplyOn(Tail(hist, names, now - windowMs), now, windowMs, limit, name)
            == Expected(hist, now, windowMs, limit)
  {
    var c := now - windowMs;
    TailSize(hist, names, c);
    CountedMirrors(hist, names, now, windowMs, limit, name, Extended(hist, now, windowMs, limit),
                   ExtendedNames(hist, names, now, windowMs, limit, name));
    OldestMirrors(hist, names, now, windowMs, limit, name);
  }

  lemma OldestMirrors(hist: seq<int>, names: seq<string>, now: int, windowMs: int, limit: int, name: string)
    requires Book(hist, names, now) && name !in names && windowMs > 0 && limit >= 1
    ensures var tail := Tail(Extended(hist, now, windowMs, limit),
                             ExtendedNames(hist, names, now, windowMs, limit, name), now - windowMs);
            tail != map[] && LowestScore(tail) == Oldest(hist, now, windowMs)
  {
    if CountAfter(hist, now - windowMs) < limit {
      OldestAdmitted(hist, names, now, now - windowMs, name);
    } else {
      OldestDenied(hist, names, now, now - windowMs, limit);
    }
  }

  lemma OldestDenied(hist: seq<int>, names: seq<string>, now: int, c: int, limit: int)
    requires Book(hist, names, now) && 1 <= limit <= CountAfter(hist, c)
    ensures Tail(hist, names, c) != map[] && LowestScore(Tail(hist, names, c)) == F.Oldest(hist, c, now)
  {
    TailOldest(hist, names, c);
  }

  lemma OldestAdmitted(hist: seq<int>, names: seq<string>, now: int, c: int, name: string)
    requires Book(hist, names, now) && name !in names && c < now
    ensures var tail := Tail(hist + [now], names + [name], c);
            tail != map[] && LowestScore(tail) == F.Oldest(hist, c, now)
  {
    BookAppend(hist, names, now, name);
    FirstAfterSnoc(hist, now, c);
    TailOldest(hist + [now], names + [name], c);
  }

  /** What an evaluation has to reply, going by the history. */
  function Expected(hist: seq<int>, now: int, windowMs: int, limit: int): R.Reply {
    var used := CountAfter(hist, now - windowMs);
    R.Reply(used < limit, if used < limit then used + 1 else used,
            NonNegative(Oldest(hist, now, windowMs) + windowMs - now))
  }

  /** One evaluation of the script follows the history and keeps mirroring it. */
  lemma EvalMirrors(server: Server, key: string, hist: seq<int>, names: seq<string>, w: int, now: int,
                    now': int, windowMs: int, limit: int, name: string, skew: int,
                    server': Server, hist': seq<int>, names': seq<string>)
    requires KeyMirrors(server, key, hist, names, w, now, skew) && now <= now'
    requires windowMs > 0 && limit >= 1 && (w > 0 ==> windowMs <= w) && name !in names
    requires server' == Eval(server, key, now' + skew, now', windowMs, limit, name).0
    requires hist' == Extended(hist, now', windowMs, limit)
    requires names' == ExtendedNames(hist, names, now', windowMs, limit, name)
    ensures Eval(server, key, now' + skew, now', windowMs, limit, name).1 == Expected(hist, now', windowMs, limit)
    ensures KeyMirrors(server', key, hist', names', windowMs, now', skew)
  {
    var c := now' - windowMs;
    FindTail(server, key, hist, names, w, now, windowMs, now', skew);
    ReplyMirrors(hist, names, now', windowMs, limit, name);
    CountedMirrors(hist, names, now', windowMs, limit, name, hist', names');
    CountedNotEmpty(Tail(hist, names, c), now', limit, name);
    MirrorsAfter(server', key, hist', names', windowMs, now', skew);
  }

  lemma MirrorsAfter(server: Server, key: string, hist: seq<int>, names: seq<string>, w: int, now: int, skew: int)
    requires Book(hist, names, now) && w > 0
    requires key in server && server[key] == ZSet(Tail(hist, names, now - w), now + skew + w)
    ensures KeyMirrors(server, key, hist, names, w, now, skew)
  {
    TailRemove(hist, names, now - w, now - w);
  }

  lemma CountedNotEmpty(kept: map<string, int>, nowMs: int, limit: int, name: string)
    requires limit >= 1
    ensures Counted(kept, nowMs, limit, name) != map[]
  {
    if |kept| < limit { assert name in Counted(kept, nowMs, limit, name); }
  }

  // ---------------------------------------------------------------- milliseconds and nanoseconds

  function ToNs(hist: seq<int>): (ns: seq<int>)
    ensures |ns| == |hist|
  {
    if hist == [] then [] else ToNs(hist[..|hist| - 1]) + [hist[|hist| - 1] * MILLISECOND]
  }

  lemma {:induction false} ToNsCounts(hist: seq<int>, a: int)
    ensures CountAfter(ToNs(hist), a * MILLISECOND) == CountAfter(hist, a)
    ensures CountAfter(hist, a) > 0 ==> FirstAfter(ToNs(hist), a * MILLISECOND) == FirstAfter(hist, a) * MILLISECOND
  {
    if hist != [] {
      var n := |hist| - 1;
      ToNsCounts(hist[..n], a);
      CountAfterSnoc(ToNs(hist[..n]), hist[n] * MILLISECOND, a * MILLISECOND);
      assert ToNs(hist)[..n] == ToNs(hist[..n]);
    }
  }

  /** Reading the script's reply back into nanoseconds. */
  lemma ReplyToDecision(used: nat, oldest: int, now: int, p: Policy, windowMs: int)
    requires p.window == windowMs * MILLISECOND && oldest + windowMs > now
    ensures FromReply(R.Reply(used < p.limit, if used < p.limit then used + 1 else used,
                              NonNegative(oldest + windowMs - now)), p, now * MILLISECOND)
            == F.Verdict(Redis, used, oldest * MILLISECOND, now * MILLISECOND, p)
  {
  }

  /** Counting in nanoseconds is counting in milliseconds. */
  lemma OldestInNs(hist: seq<int>, now: int, windowMs: int)
    ensures F.Oldest(ToNs(hist), (now - windowMs) * MILLISECOND, now * MILLISECOND)
            == Oldest(hist, now, windowMs) * MILLISECOND
  {
    ToNsCounts(hist, now - windowMs);
  }

  lemma ExtendedInNs(hist: seq<int>, now: int, windowMs: int, limit: int)
    ensures ToNs(Extended(hist, now, windowMs, limit)) ==
            if CountAfter(hist, now - windowMs) < limit then ToNs(hist) + [now * MILLISECOND] else ToNs(hist)
  {
    assert (hist + [now])[..|hist|] == hist;
  }

  lemma OldestInWindow(hist: seq<int>, now: int, windowMs: int)
    requires windowMs > 0
    ensures Oldest(hist, now, windowMs) + windowMs > now
  {
  }

  /** A decision, from the count and the oldest stamp of its window. */
  lemma DecideFrom(hist: seq<int>, now: int, p: Policy, used: nat, oldest: int)
    requires used == CountAfter(hist, now - p.window) && oldest == F.Oldest(hist, now - p.window, now)
    ensures F.Decide(Redis, hist, now, p).0 == if used < p.limit then hist + [now] else hist
    ensures F.Decide(Redis, hist, now, p).1 == F.Verdict(Redis, used, oldest, now, p)
  {
  }

  /** The full history's decision on a whole-millisecond clock, read in milliseconds. */
  lemma DecideInMs(hist: seq<int>, now: int, p: Policy, windowMs: int)
    requires p.window == windowMs * MILLISECOND > 0
    ensures F.Decide(Redis, ToNs(hist), now * MILLISECOND, p).0 == ToNs(Extended(hist, now, windowMs, p.limit))
    ensures F.Decide(Redis, ToNs(hist), now * MILLISECOND, p).1 ==
            FromReply(Expected(hist, now, windowMs, p.limit), p, now * MILLISECOND)
  {
    var used, oldest := CountAfter(hist, now - windowMs), Oldest(hist, now, windowMs);
    WindowInNs(hist, now, p, windowMs);
    DecideFrom(ToNs(hist), now * MILLISECOND, p, used, oldest * MILLISECOND);
    ExtendedInNs(hist, now, windowMs, p.limit);
    OldestInWindow(hist, now, windowMs);
    ReplyToDecision(used, oldest, now, p, windowMs);
  }

  lemma WindowInNs(hist: seq<int>, now: int, p: Policy, windowMs: int)
    requires p.window == windowMs * MILLISECOND
    ensures CountAfter(ToNs(hist), now * MILLISECOND - p.window) == CountAfter(hist, now - windowMs)
    ensures F.Oldest(ToNs(hist), now * MILLISECOND - p.window, now * MILLISECOND)
            == Oldest(hist, now, windowMs) * MILLISECOND
  {
    assert (now - windowMs) * MILLISECOND == now * MILLISECOND - p.window;
    ToNsCounts(hist, now - windowMs);
    OldestInNs(hist, now, windowMs);
  }

  lemma ToMsExact(t: int)
    ensures ToMs(t * MILLISECOND) == t
  {
  }

  /** On whole milliseconds the limiter hands the script exactly its own time and window. */
  lemma DecideIsEval(server: Server, key: string, clock: int, now: int, p: Policy, windowMs: int, name: string,
                     r: R.Reply)
    requires p.window == windowMs * MILLISECOND > 0
    requires r == Eval(server, key, clock, now, windowMs, p.limit, name).1
    ensures R.Decide(server, key, clock, now * MILLISECOND, p, name).1 == FromReply(r, p, now * MILLISECOND)
  {
    ToMsExact(now);
    ToMsExact(windowMs);
  }

  lemma WindowSize(server: Server, key: string, hist: seq<int>, names: seq<string>, w: int, now: int,
                   now': int, windowMs: int, skew: int)
    requires KeyMirrors(server, key, hist, names, w, now, skew) && now <= now' && (w > 0 ==> windowMs <= w)
    ensures |RemoveUpTo(Find(server, key, now' + skew), now' - windowMs)| == CountAfter(hist, now' - windowMs)
  {
    FindTail(server, key, hist, names, w, now, windowMs, now', skew);
    TailSize(hist, names, now' - windowMs);
  }

  /** The usage RedisLimiter.Peek reports is the full history's. */
  lemma UsageAgrees(server: Server, key: string, clock: int, hist: seq<int>, now: int, p: Policy, windowMs: int)
    requires p.window == windowMs * MILLISECOND > 0
    requires |RemoveUpTo(Find(server, key, clock), now - windowMs)| == CountAfter(hist, now - windowMs)
    ensures R.Usage(server, key, clock, now * MILLISECOND, p) == CountAfter(ToNs(hist), now * MILLISECOND - p.window)
  {
    var c := now - windowMs;
    assert now * MILLISECOND - p.window == c * MILLISECOND;
    ToMsExact(c);
    ToNsCounts(hist, c);
  }

  lemma PeekKeepsMirror(server: Server, key: string, hist: seq<int>, names: seq<string>, w: int, now: int, w': int,
                        now': int, skew: int)
    requires KeyMirrors(server, key, hist, names, w, now, skew) && now <= now' && 0 < w' && (w > 0 ==> w' <= w)
    ensures KeyMirrors(server, key, hist, names, w', now', skew)
  {
    if key in server { MirrorsLater(server[key], hist, names, w, now, w', now', skew); }
  }
}
