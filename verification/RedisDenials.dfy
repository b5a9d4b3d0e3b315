/** Nobody is turned away by Redis for nothing, in a fleet either (internal/limiter/redis.go,
    internal/limiter/manager.go). */
module RedisDenials {
  import opened Q = SharedRedis
  import R = RedisScript
  import Fleet

  /** A member of a set was added for a caller who was told yes, in time or late. */
  ghost predicate AddedFor(s: State, key: string, member: string, score: int, c: Caller) {
    && c in s.messages && s.messages[c].key == key && s.messages[c].member == member && s.messages[c].stamp == score
    && (true in s.messages[c].replies || true in s.messages[c].late)
  }

  ghost predicate SetBacked(s: State, key: string) {
    key in s.server ==>
      forall m :: m in s.server[key].scores ==> exists c :: AddedFor(s, key, m, s.server[key].scores[m], c)
  }

  ghost predicate ServerBacked(s: State) {
    forall key :: SetBacked(s, key)
  }

  lemma SendBacked(s: State, c: Caller, key: string, member: string, now: int)
    requires ServerBacked(s) && c !in s.messages
    ensures ServerBacked(Send(s, c, key, member, now))
  {
    var s' := Send(s, c, key, member, now);
    forall k ensures SetBacked(s', k) {
      assert SetBacked(s, k);
      if k in s'.server {
        forall m | m in s'.server[k].scores ensures exists d :: AddedFor(s', k, m, s'.server[k].scores[m], d) {
          var d :| AddedFor(s, k, m, s.server[k].scores[m], d);
          assert AddedFor(s', k, m, s'.server[k].scores[m], d);
        }
      }
    }
  }

  lemma StillAdded(s: State, c: Caller, m: Message, server': R.Server, allowed: bool, now: int, rules: Rules,
                   s': State, key: string, member: string, score: int, d: Caller)
    requires c in s.messages && m == s.messages[c] && s' == Noted(s, c, m, server', allowed, now, rules)
    requires AddedFor(s, key, member, score, d)
    ensures AddedFor(s', key, member, score, d)
  {
  }

  lemma NowAdded(s: State, c: Caller, m: Message, server': R.Server, now: int, rules: Rules, s': State)
    requires c in s.messages && m == s.messages[c] && s' == Noted(s, c, m, server', true, now, rules)
    ensures AddedFor(s', m.key, m.member, m.stamp, c)
  {
  }

  /** Where the members of a set after an evaluation come from. */
  lemma EvaluatedMembers(server: R.Server, m: Message, now: int, rules: Rules, server': R.Server, allowed: bool,
                         key: string)
    requires server' == Evaluated(server, m, now, rules).0 && allowed == Evaluated(server, m, now, rules).1.allowed
    requires key in server'
    ensures forall x :: x in server'[key].scores ==>
              || (key in server && x in server[key].scores && server[key].scores[x] == server'[key].scores[x])
              || (allowed && key == m.key && x == m.member && server'[key].scores[x] == m.stamp)
  {
  }

  lemma ExecBacked(s: State, c: Caller, m: Message, now: int, rules: Rules, server': R.Server, allowed: bool,
                   s': State)
    requires ServerBacked(s) && c in s.messages && m == s.messages[c]
    requires server' == Evaluated(s.server, m, now, rules).0
    requires allowed == Evaluated(s.server, m, now, rules).1.allowed
    requires s' == Noted(s, c, m, server', allowed, now, rules)
    ensures ServerBacked(s')
  {
    forall k ensures SetBacked(s', k) {
      assert SetBacked(s, k);
      if k in server' {
        EvaluatedMembers(s.server, m, now, rules, server', allowed, k);
        forall x | x in server'[k].scores ensures exists d :: AddedFor(s', k, x, server'[k].scores[x], d) {
          if k in s.server && x in s.server[k].scores && s.server[k].scores[x] == server'[k].scores[x] {
            var d :| AddedFor(s, k, x, s.server[k].scores[x], d);
            StillAdded(s, c, m, server', allowed, now, rules, s', k, x, server'[k].scores[x], d);
          } else {
            NowAdded(s, c, m, server', now, rules, s');
          }
        }
      }
    }
  }

  /** The callers told yes for a key, in time or late, with stamps later than `lo`. */
  function Told(s: State, key: string, lo: int): set<Caller> {
    set c | c in s.messages && s.messages[c].key == key && s.messages[c].stamp > lo
            && (true in s.messages[c].replies || true in s.messages[c].late)
  }

  /** Every member counted stands for a caller told yes. */
  lemma {:induction false} MembersCount(s: State, key: string, lo: int, members: set<string>, callers: set<Caller>)
    requires callers <= s.messages.Keys
    requires forall m :: m in members ==> exists c :: c in callers && s.messages[c].member == m
    ensures |members| <= |callers|
  {
    if members != {} {
      var m :| m in members;
      var c :| c in callers && s.messages[c].member == m;
      forall x | x in members - {m} ensures exists d :: d in callers - {c} && s.messages[d].member == x {
        var d :| d in callers && s.messages[d].member == x;
        assert d in callers - {c};
      }
      MembersCount(s, key, lo, members - {m}, callers - {c});
    }
  }

  /** The script turns a request away only when at least `limit` callers have been told yes for its key
      with stamps in its window; some of them perhaps too late, and the request itself perhaps among
      them, if it has been sent again. */
  lemma RedisDeniesOnlyWhenSpent(s: State, c: Caller, m: Message, now: int, rules: Rules, key: string, lo: int)
    requires ServerBacked(s) && c in s.messages && m == s.messages[c]
    requires !Evaluated(s.server, m, now, rules).1.allowed && key == m.key && lo == m.stamp - rules.window
    ensures |Told(s, key, lo)| >= rules.limit
  {
    var kept := R.RemoveUpTo(R.Find(s.server, key, now + rules.skew), lo);
    assert SetBacked(s, key);
    forall x | x in kept.Keys ensures exists d :: d in Told(s, key, lo) && s.messages[d].member == x {
      var d :| AddedFor(s, key, x, s.server[key].scores[x], d);
      assert d in Told(s, key, lo);
    }
    MembersCount(s, key, lo, kept.Keys, Told(s, key, lo));
  }

  // ---------------------------------------------------------------- the fleet

  lemma {:induction false} BackedInEveryRun(run: seq<Fleet.Event>, w: Fleet.World)
    requires w.Usable() && Fleet.Run(run, w) && Fleet.TimelyRun(run, w)
    ensures ServerBacked(Fleet.After(run, w).redis)
  {
    if run != [] {
      var n := |run| - 1;
      var s, step, now := Fleet.After(run[..n], w), run[n].step, run[n].at;
      BackedInEveryRun(run[..n], w);
      match step
      case Send(i, t) =>
        Fleet.OkInEveryRun(run[..n], w, now);
        Fleet.NotYetSent(s, i, t, w);
        SendInFleet(s, i, t, now, w);
      case Exec(c) => ExecInFleet(s, c, now, w);
      case _ =>
    }
  }

  lemma SendInFleet(s: Fleet.State, i: nat, t: nat, now: nat, w: Fleet.World)
    requires ServerBacked(s.redis) && Fleet.Enabled(s, Fleet.Send(i, t)) && i < |w.names|
    requires Caller(i, t) !in s.redis.messages
    ensures ServerBacked(Fleet.Redis(s, Fleet.Send(i, t), now, w))
  {
    var inst := s.instances[i];
    SendBacked(s.redis, Caller(i, t), inst.calls[t].key,
               Fleet.MemberOf(w, i, now, (inst.counter + 1) % Fleet.Members.COUNTER_RANGE), now);
  }

  lemma ExecInFleet(s: Fleet.State, c: Caller, now: nat, w: Fleet.World)
    requires ServerBacked(s.redis) && c in s.redis.messages
    ensures ServerBacked(Exec(s.redis, c, now, w.rules))
  {
    var r := Evaluated(s.redis.server, s.redis.messages[c], now, w.rules);
    ExecBacked(s.redis, c, s.redis.messages[c], now, w.rules, r.0, r.1.allowed, Exec(s.redis, c, now, w.rules));
  }

  /** In every timely run of a fleet Redis says no only when `limit` callers have been told yes in the
      window. */
  lemma FleetDeniesOnlyWhenSpent(run: seq<Fleet.Event>, w: Fleet.World, q: State, c: Caller, m: Message, now: nat,
                                 key: string, lo: int)
    requires w.Usable() && Fleet.Run(run, w) && Fleet.TimelyRun(run, w) && q == Fleet.After(run, w).redis
    requires c in q.messages && m == q.messages[c] && !Evaluated(q.server, m, now, w.rules).1.allowed
    requires key == m.key && lo == m.stamp - w.rules.window
    ensures |Told(q, key, lo)| >= w.rules.limit
  {
    BackedInEveryRun(run, w);
    RedisDeniesOnlyWhenSpent(q, c, m, now, w.rules, key, lo);
  }
}
