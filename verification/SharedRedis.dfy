/** One Redis shared by a fleet. A request reaches the server as a message; its script may run once,
    several times (the client resends) or never, early or late, whether or not anyone still waits for
    the reply (internal/limiter/redis.go, internal/limiter/manager.go).

    Instants are whole milliseconds of one global clock. */
module SharedRedis {
  import opened SlidingWindow
  import R = RedisScript
  import H = RedisHistory

  /** Call number `call` of instance number `inst`. */
  datatype Caller = Caller(inst: nat, call: nat)

  /** A request on its way, and the replies the server has produced for it: those while its caller
      may still be waiting, and those after the caller's deadline. */
  datatype Message = Message(key: string, stamp: int, member: string, replies: set<bool>, late: set<bool>)

  /** The requests admitted for one key: stamp, instant, member and caller of each. */
  datatype Log = Log(stamps: seq<int>, ats: seq<int>, names: seq<string>, callers: seq<Caller>)

  const EMPTY := Log([], [], [], [])

  datatype State = State(server: R.Server, messages: map<Caller, Message>, logs: map<string, Log>)

  const INITIAL := State(map[], map[], map[])

  function LogOf(s: State, key: string): Log {
    if key in s.logs then s.logs[key] else EMPTY
  }

  /** What every script is told, how long after its stamp a caller takes a reply, and how far the
      server's clock is ahead. */
  datatype Rules = Rules(limit: int, window: int, lag: int, skew: int) {
    predicate Usable() {
      limit >= 1 && window >= 1 && 0 <= lag <= window
    }
  }

  function Send(s: State, c: Caller, key: string, member: string, now: int): State {
    s.(messages := s.messages[c := Message(key, now, member, {}, {})])
  }

  function Append(log: Log, c: Caller, m: Message, now: int): Log {
    Log(log.stamps + [m.stamp], log.ats + [now], log.names + [m.member], log.callers + [c])
  }

  /** May the caller of a message still take a reply? */
  predicate Prompt(m: Message, now: int, rules: Rules) {
    now <= m.stamp + rules.lag
  }

  function Replied(m: Message, allowed: bool, prompt: bool): Message {
    if prompt then m.(replies := m.replies + {allowed}) else m.(late := m.late + {allowed})
  }

  /** The script of message c has run and said `allowed`. It counts as an admission only if its reply
      can still be taken. */
  function Noted(s: State, c: Caller, m: Message, server': R.Server, allowed: bool, now: int, rules: Rules): State {
    var log, prompt := LogOf(s, m.key), Prompt(m, now, rules);
    State(server', s.messages[c := Replied(m, allowed, prompt)],
          if allowed && prompt && c !in log.callers then s.logs[m.key := Append(log, c, m, now)] else s.logs)
  }

  /** What the server makes of a message that is evaluated at `now`. */
  ghost function Evaluated(server: R.Server, m: Message, now: int, rules: Rules): (R.Server, R.Reply) {
    R.Eval(server, m.key, now + rules.skew, m.stamp, rules.window, rules.limit, m.member)
  }

  /** The script of message c runs, whenever it does. */
  ghost function Exec(s: State, c: Caller, now: int, rules: Rules): State
    requires c in s.messages
  {
    var r := Evaluated(s.server, s.messages[c], now, rules);
    Noted(s, c, s.messages[c], r.0, r.1.allowed, now, rules)
  }

  lemma EvaluatedIs(server: R.Server, m: Message, now: int, rules: Rules, key: string, clock: int, stamp: int,
                    member: string)
    requires key == m.key && clock == now + rules.skew && stamp == m.stamp && member == m.member
    ensures Evaluated(server, m, now, rules) == R.Eval(server, key, clock, stamp, rules.window, rules.limit, member)
  {
  }

  function Sent(m: Message): (string, int, string) {
    (m.key, m.stamp, m.member)
  }

  /** Everyone's message but one is as it was, and that one has been answered in time or late. */
  ghost predicate Answered(before: map<Caller, Message>, after: map<Caller, Message>, c: Caller, allowed: bool,
                           inTime: bool)
  {
    && c in before && c in after && before - {c} == after - {c}
    && after[c] == if inTime then before[c].(replies := before[c].replies + {allowed})
                   else before[c].(late := before[c].late + {allowed})
  }

  lemma NotedAnswers(s: State, c: Caller, m: Message, server': R.Server, allowed: bool, now: int, rules: Rules,
                     s': State)
    requires c in s.messages && m == s.messages[c] && s' == Noted(s, c, m, server', allowed, now, rules)
    ensures s'.server == server' && Answered(s.messages, s'.messages, c, allowed, now <= m.stamp + rules.lag)
  {
  }

  /** A script that runs has its effects on the server, and its answer goes to its caller: as a reply the
      caller may take until the deadline, as a late one after it. */
  lemma ExecDoes(s: State, c: Caller, now: int, rules: Rules, key: string, clock: int, stamp: int, member: string,
                 s': State)
    returns (r: R.Reply)
    requires c in s.messages && s' == Exec(s, c, now, rules)
    requires clock == now + rules.skew && (key, stamp, member) == Sent(s.messages[c])
    ensures R.Effects(s.server, s'.server, r, key, clock, stamp, rules.window, rules.limit, member)
    ensures Answered(s.messages, s'.messages, c, r.allowed, now <= stamp + rules.lag)
  {
    var m, e := s.messages[c], R.Eval(s.server, key, clock, stamp, rules.window, rules.limit, member);
    EvaluatedIs(s.server, m, now, rules, key, clock, stamp, member);
    r := e.1;
    NotedAnswers(s, c, m, e.0, r.allowed, now, rules, s');
    R.EvalEffects(s.server, key, clock, stamp, rules.window, rules.limit, member, s'.server, r);
  }

  // ---------------------------------------------------------------- the invariant

  /** Admission number j is still in the set if it is still in the window, and the key will outlive it. */
  ghost predicate Present(server: R.Server, key: string, name: string, stamp: int, rules: Rules) {
    && key in server
    && name in server[key].scores && server[key].scores[name] == stamp
    && stamp + rules.window + rules.skew <= server[key].expireAt
  }

  ghost predicate SetCovers(server: R.Server, key: string, log: Log, now: int, rules: Rules) {
    && |log.names| == |log.stamps|
    && forall j :: 0 <= j < |log.stamps| && log.stamps[j] > now - rules.window ==>
         Present(server, key, log.names[j], log.stamps[j], rules)
  }

  ghost predicate LogOk(log: Log, now: int, rules: Rules) {
    && Spaced(log.stamps, log.ats, rules.limit, rules.window, rules.lag)
    && AllAtMost(log.stamps, now)
    && |log.names| == |log.callers| == |log.stamps|
    && H.Distinct(log.names)
  }

  /** Every admission on record was asked for. */
  ghost predicate Asked(messages: map<Caller, Message>, key: string, log: Log) {
    && |log.names| == |log.callers| == |log.stamps|
    && forall j :: 0 <= j < |log.callers| ==>
         && log.callers[j] in messages
         && messages[log.callers[j]].key == key
         && messages[log.callers[j]].stamp == log.stamps[j]
         && messages[log.callers[j]].member == log.names[j]
  }

  ghost predicate KeyOk(s: State, key: string, now: int, rules: Rules) {
    && LogOk(LogOf(s, key), now, rules)
    && SetCovers(s.server, key, LogOf(s, key), now, rules)
    && Asked(s.messages, key, LogOf(s, key))
  }

  ghost predicate MembersDistinct(messages: map<Caller, Message>) {
    forall c, d :: c in messages && d in messages && c != d ==> messages[c].member != messages[d].member
  }

  /** Every positive reply that can be taken is on record. */
  ghost predicate Recorded(s: State, c: Caller)
    requires c in s.messages
  {
    true in s.messages[c].replies ==> c in LogOf(s, s.messages[c].key).callers
  }

  /** There are late replies only after the deadline. */
  ghost predicate LateOk(m: Message, now: int, rules: Rules) {
    m.late != {} ==> !Prompt(m, now, rules)
  }

  ghost predicate Ok(s: State, now: int, rules: Rules) {
    && rules.Usable()
    && (forall key :: KeyOk(s, key, now, rules))
    && (forall c :: c in s.messages ==>
                      s.messages[c].stamp <= now && Recorded(s, c) && LateOk(s.messages[c], now, rules))
    && MembersDistinct(s.messages)
  }

  lemma InitiallyOk(now: int, rules: Rules)
    requires rules.Usable()
    ensures Ok(INITIAL, now, rules)
  {
  }

  lemma TimePasses(s: State, now: int, now': int, rules: Rules)
    requires Ok(s, now, rules) && now <= now'
    ensures Ok(s, now', rules)
  {
    forall key ensures KeyOk(s, key, now', rules) {
      assert KeyOk(s, key, now, rules);
    }
  }

  lemma SendKeeps(s: State, c: Caller, key: string, member: string, now: int, rules: Rules)
    requires Ok(s, now, rules) && c !in s.messages
    requires forall d :: d in s.messages ==> s.messages[d].member != member
    ensures Ok(Send(s, c, key, member, now), now, rules)
  {
    var s' := Send(s, c, key, member, now);
    forall k ensures KeyOk(s', k, now, rules) {
      assert KeyOk(s, k, now, rules);
    }
  }

  // ---------------------------------------------------------------- running a script

  /** The set the script counts holds everything the true window holds. */
  lemma CountedAtMost(kept: map<string, int>, log: Log, a: int)
    requires |log.names| == |log.stamps| && H.Distinct(log.names)
    requires forall j :: 0 <= j < |log.stamps| && log.stamps[j] > a ==> log.names[j] in kept
    ensures CountAfter(log.stamps, a) <= |kept|
  {
    var tail := H.Tail(log.stamps, log.names, a);
    H.TailSize(log.stamps, log.names, a);
    H.TailKeys(log.stamps, log.names, a);
    assert tail.Keys <= kept.Keys;
    SubsetSize(tail.Keys, kept.Keys);
  }

  /** What a script with stamp `stamp` finds at `now`: nothing in the true window has been trimmed
      or has expired with its key. */
  lemma FindsWindow(server: R.Server, key: string, log: Log, stamp: int, now: int, rules: Rules, j: nat)
    requires SetCovers(server, key, log, now, rules) && stamp <= now
    requires j < |log.stamps| && log.stamps[j] > now - rules.window
    ensures var kept := R.RemoveUpTo(R.Find(server, key, now + rules.skew), stamp - rules.window);
            log.names[j] in kept && kept[log.names[j]] == log.stamps[j]
  {
    assert Present(server, key, log.names[j], log.stamps[j], rules);
  }

  /** A script that admits has room in the true window too. */
  lemma RoomInWindow(server: R.Server, key: string, log: Log, stamp: int, now: int, rules: Rules)
    requires SetCovers(server, key, log, now, rules) && stamp <= now && H.Distinct(log.names)
    ensures CountAfter(log.stamps, now - rules.window)
            <= |R.RemoveUpTo(R.Find(server, key, now + rules.skew), stamp - rules.window)|
  {
    var kept := R.RemoveUpTo(R.Find(server, key, now + rules.skew), stamp - rules.window);
    forall j | 0 <= j < |log.stamps| && log.stamps[j] > now - rules.window ensures log.names[j] in kept {
      FindsWindow(server, key, log, stamp, now, rules, j);
    }
    CountedAtMost(kept, log, now - rules.window);
  }

  /** What a script leaves under its key. */
  lemma EvalStores(server: R.Server, m: Message, now: int, rules: Rules, kept: map<string, int>,
                   server': R.Server, allowed: bool)
    requires rules.limit >= 1
    requires kept == R.RemoveUpTo(R.Find(server, m.key, now + rules.skew), m.stamp - rules.window)
    requires server' == Evaluated(server, m, now, rules).0
    requires allowed == Evaluated(server, m, now, rules).1.allowed
    ensures m.key in server'
    ensures server'[m.key] == R.ZSet(R.Counted(kept, m.stamp, rules.limit, m.member), now + rules.skew + rules.window)
    ensures allowed <==> |kept| < rules.limit
  {
    H.CountedNotEmpty(kept, m.stamp, rules.limit, m.member);
  }

  /** What was found is stored again. */
  lemma KeptIsPresent(server': R.Server, key: string, kept: map<string, int>, m: Message, name: string, stamp: int,
                      now: int, rules: Rules)
    requires name in kept && kept[name] == stamp && stamp <= now && (name == m.member ==> stamp == m.stamp)
    requires key in server'
    requires server'[key] == R.ZSet(R.Counted(kept, m.stamp, rules.limit, m.member), now + rules.skew + rules.window)
    ensures Present(server', key, name, stamp, rules)
  {
  }

  /** After the script has run, the set still covers the window. */
  lemma EvalCovers(server: R.Server, server': R.Server, key: string, log: Log, m: Message, now: int, rules: Rules,
                   kept: map<string, int>)
    requires SetCovers(server, key, log, now, rules) && m.stamp <= now && AllAtMost(log.stamps, now)
    requires forall j :: 0 <= j < |log.names| && log.names[j] == m.member ==> log.stamps[j] == m.stamp
    requires kept == R.RemoveUpTo(R.Find(server, key, now + rules.skew), m.stamp - rules.window)
    requires key in server'
    requires server'[key] == R.ZSet(R.Counted(kept, m.stamp, rules.limit, m.member), now + rules.skew + rules.window)
    ensures SetCovers(server', key, log, now, rules)
  {
    forall j | 0 <= j < |log.stamps| && log.stamps[j] > now - rules.window
      ensures Present(server', key, log.names[j], log.stamps[j], rules)
    {
      FindsWindow(server, key, log, m.stamp, now, rules, j);
      KeptIsPresent(server', key, kept, m, log.names[j], log.stamps[j], now, rules);
    }
  }

  lemma AppendOk(log: Log, c: Caller, m: Message, now: int, rules: Rules)
    requires LogOk(log, now, rules) && m.stamp <= now <= m.stamp + rules.lag && m.member !in log.names
    requires CountAfter(log.stamps, now - rules.window) < rules.limit
    ensures LogOk(Append(log, c, m, now), now, rules)
  {
    SpacedAppend(log.stamps, log.ats, rules.limit, rules.window, rules.lag, m.stamp, now);
  }

  lemma AppendCovered(server: R.Server, key: string, log: Log, c: Caller, m: Message, now: int, rules: Rules)
    requires SetCovers(server, key, log, now, rules) && Present(server, key, m.member, m.stamp, rules)
    ensures SetCovers(server, key, Append(log, c, m, now), now, rules)
  {
  }

  /** What running message c does to the log of its key. */
  lemma LogExtends(log: Log, c: Caller, m: Message, server': R.Server, allowed: bool, now: int, rules: Rules)
    requires LogOk(log, now, rules) && SetCovers(server', m.key, log, now, rules) && m.stamp <= now
    requires allowed ==> Present(server', m.key, m.member, m.stamp, rules)
    requires allowed ==> CountAfter(log.stamps, now - rules.window) < rules.limit
    requires c !in log.callers ==> m.member !in log.names
    ensures var log' := if allowed && Prompt(m, now, rules) && c !in log.callers then Append(log, c, m, now) else log;
            LogOk(log', now, rules) && SetCovers(server', m.key, log', now, rules)
  {
    if allowed && Prompt(m, now, rules) && c !in log.callers {
      AppendOk(log, c, m, now, rules);
      AppendCovered(server', m.key, log, c, m, now, rules);
    }
  }

  lemma NewName(messages: map<Caller, Message>, key: string, log: Log, c: Caller)
    requires Asked(messages, key, log) && MembersDistinct(messages) && c in messages
    ensures c !in log.callers ==> messages[c].member !in log.names
    ensures forall j :: 0 <= j < |log.names| && log.names[j] == messages[c].member ==>
              log.stamps[j] == messages[c].stamp
  {
  }

  /** Where the script found room, so does the true window; and what it stored covers the log, and the
      new member if it admitted. */
  lemma EvalFacts(server: R.Server, log: Log, m: Message, now: int, rules: Rules, server': R.Server, allowed: bool)
    requires rules.Usable() && m.stamp <= now && H.Distinct(log.names) && AllAtMost(log.stamps, now)
    requires SetCovers(server, m.key, log, now, rules)
    requires forall j :: 0 <= j < |log.names| && log.names[j] == m.member ==> log.stamps[j] == m.stamp
    requires server' == Evaluated(server, m, now, rules).0
    requires allowed == Evaluated(server, m, now, rules).1.allowed
    ensures SetCovers(server', m.key, log, now, rules)
    ensures allowed ==> Present(server', m.key, m.member, m.stamp, rules)
    ensures allowed ==> CountAfter(log.stamps, now - rules.window) < rules.limit
  {
    var kept := R.RemoveUpTo(R.Find(server, m.key, now + rules.skew), m.stamp - rules.window);
    EvalStores(server, m, now, rules, kept, server', allowed);
    EvalCovers(server, server', m.key, log, m, now, rules, kept);
    RoomInWindow(server, m.key, log, m.stamp, now, rules);
  }

  lemma NotedLog(s: State, c: Caller, m: Message, log: Log, server': R.Server, allowed: bool, now: int, rules: Rules)
    requires log == LogOf(s, m.key)
    ensures LogOf(Noted(s, c, m, server', allowed, now, rules), m.key)
            == if allowed && Prompt(m, now, rules) && c !in log.callers then Append(log, c, m, now) else log
  {
  }

  /** The key of the message that ran. */
  lemma OwnKeyOk(s: State, c: Caller, m: Message, log: Log, server': R.Server, allowed: bool, now: int, rules: Rules,
                 s': State)
    requires c in s.messages && m == s.messages[c] && m.stamp <= now && log == LogOf(s, m.key)
    requires LogOk(log, now, rules) && SetCovers(server', m.key, log, now, rules) && Asked(s.messages, m.key, log)
    requires MembersDistinct(s.messages) && Recorded(s, c)
    requires allowed ==> Present(server', m.key, m.member, m.stamp, rules)
    requires allowed ==> CountAfter(log.stamps, now - rules.window) < rules.limit
    requires s' == Noted(s, c, m, server', allowed, now, rules)
    ensures KeyOk(s', m.key, now, rules) && Recorded(s', c)
  {
    NotedLog(s, c, m, log, server', allowed, now, rules);
    NewName(s.messages, m.key, log, c);
    LogExtends(log, c, m, server', allowed, now, rules);
    if LogOf(s', m.key) != log {
      assert Append(log, c, m, now).callers[|log.callers|] == c;
    }
  }

  /** Nothing happens under the other keys. */
  ghost predicate SameElsewhere(server: R.Server, server': R.Server, key: string) {
    && (forall k :: k != key ==> (k in server <==> k in server'))
    && (forall k :: k != key && k in server ==> server'[k] == server[k])
  }

  lemma EvalElsewhere(server: R.Server, m: Message, now: int, rules: Rules, server': R.Server)
    requires server' == Evaluated(server, m, now, rules).0
    ensures SameElsewhere(server, server', m.key)
  {
  }

  lemma OtherKeyOk(s: State, c: Caller, m: Message, key: string, server': R.Server, allowed: bool, now: int,
                   rules: Rules, s': State)
    requires c in s.messages && m == s.messages[c] && key != m.key && KeyOk(s, key, now, rules)
    requires SameElsewhere(s.server, server', m.key) && s' == Noted(s, c, m, server', allowed, now, rules)
    ensures KeyOk(s', key, now, rules) && LogOf(s', key) == LogOf(s, key)
  {
    forall j | 0 <= j < |LogOf(s, key).stamps| && LogOf(s, key).stamps[j] > now - rules.window
      ensures Present(server', key, LogOf(s, key).names[j], LogOf(s, key).stamps[j], rules)
    {
      assert Present(s.server, key, LogOf(s, key).names[j], LogOf(s, key).stamps[j], rules);
    }
  }

  lemma OtherRecorded(s: State, c: Caller, m: Message, d: Caller, server': R.Server, allowed: bool, now: int,
                      rules: Rules, s': State)
    requires c in s.messages && m == s.messages[c] && d in s.messages && d != c && Recorded(s, d)
    requires s' == Noted(s, c, m, server', allowed, now, rules)
    ensures Recorded(s', d)
  {
    NotedLog(s, c, m, LogOf(s, m.key), server', allowed, now, rules);
  }

  /** Taking note of what a script did keeps the invariant, once its own key is seen to. */
  lemma NotedKeeps(s: State, c: Caller, m: Message, log: Log, server': R.Server, allowed: bool, now: int, rules: Rules,
                   s': State)
    requires Ok(s, now, rules) && c in s.messages && m == s.messages[c] && log == LogOf(s, m.key)
    requires SameElsewhere(s.server, server', m.key) && SetCovers(server', m.key, log, now, rules)
    requires allowed ==> Present(server', m.key, m.member, m.stamp, rules)
    requires allowed ==> CountAfter(log.stamps, now - rules.window) < rules.limit
    requires s' == Noted(s, c, m, server', allowed, now, rules)
    ensures Ok(s', now, rules)
  {
    assert KeyOk(s, m.key, now, rules) && Recorded(s, c);
    OwnKeyOk(s, c, m, log, server', allowed, now, rules, s');
    forall key ensures KeyOk(s', key, now, rules) {
      assert KeyOk(s, key, now, rules);
      if key != m.key { OtherKeyOk(s, c, m, key, server', allowed, now, rules, s'); }
    }
    forall d | d in s'.messages
      ensures s'.messages[d].stamp <= now && Recorded(s', d) && LateOk(s'.messages[d], now, rules)
    {
      assert Recorded(s, d) && LateOk(s.messages[d], now, rules);
      if d != c { OtherRecorded(s, c, m, d, server', allowed, now, rules, s'); }
    }
  }

  /** Evaluating the script and taking note of its reply. */
  lemma EvalKeeps(s: State, c: Caller, m: Message, log: Log, now: int, rules: Rules, server': R.Server, allowed: bool,
                  s': State)
    requires Ok(s, now, rules) && c in s.messages && m == s.messages[c] && log == LogOf(s, m.key)
    requires server' == Evaluated(s.server, m, now, rules).0
    requires allowed == Evaluated(s.server, m, now, rules).1.allowed
    requires s' == Noted(s, c, m, server', allowed, now, rules)
    ensures Ok(s', now, rules)
  {
    assert KeyOk(s, m.key, now, rules);
    NewName(s.messages, m.key, log, c);
    EvalFacts(s.server, log, m, now, rules, server', allowed);
    EvalElsewhere(s.server, m, now, rules, server');
    NotedKeeps(s, c, m, log, server', allowed, now, rules, s');
  }

  /** Running a script, at any time and however often, keeps every window on the server safe. */
  lemma ExecKeeps(s: State, c: Caller, now: int, rules: Rules)
    requires Ok(s, now, rules) && c in s.messages
    ensures Ok(Exec(s, c, now, rules), now, rules)
  {
    var m := s.messages[c];
    var r := Evaluated(s.server, m, now, rules);
    EvalKeeps(s, c, m, LogOf(s, m.key), now, rules, r.0, r.1.allowed, Exec(s, c, now, rules));
  }

  // ---------------------------------------------------------------- the bound

  /** The callers that have been sent a positive reply for a key in time, by the stamp they read. */
  function Answers(s: State, key: string, lo: int, hi: int): set<Caller> {
    set c | c in s.messages && s.messages[c].key == key && true in s.messages[c].replies
            && lo < s.messages[c].stamp <= hi
  }

  lemma AnswersAreLogged(s: State, now: int, rules: Rules, key: string, lo: int, hi: int)
    requires Ok(s, now, rules)
    ensures var log := LogOf(s, key);
            |Answers(s, key, lo, hi)| <= CountIn(log.stamps, lo, hi)
  {
    var log := LogOf(s, key);
    assert KeyOk(s, key, now, rules);
    var marked := Marked(log.stamps, log.callers, lo, hi);
    forall c | c in Answers(s, key, lo, hi) ensures c in marked {
      assert Recorded(s, c);
      var j :| 0 <= j < |log.callers| && log.callers[j] == c;
      assert log.stamps[j] == s.messages[c].stamp;
    }
    SubsetSize(Answers(s, key, lo, hi), marked);
  }

  lemma LogWindow(s: State, now: int, rules: Rules, key: string, a: int)
    requires rules.Usable() && KeyOk(s, key, now, rules)
    ensures CountIn(LogOf(s, key).stamps, a, a + rules.window - rules.lag) <= rules.limit
  {
    var log := LogOf(s, key);
    SpacedWindow(log.stamps, log.ats, rules.limit, rules.window, rules.lag, a);
  }

  /** However many instances call, and however often scripts run, Redis tells at most `limit`
      callers yes in any window shorter by the lag. */
  lemma ServerWindow(s: State, now: int, rules: Rules, key: string, a: int)
    requires Ok(s, now, rules)
    ensures |Answers(s, key, a, a + rules.window - rules.lag)| <= rules.limit
  {
    LogWindow(s, now, rules, key, a);
    AnswersAreLogged(s, now, rules, key, a, a + rules.window - rules.lag);
  }
}
