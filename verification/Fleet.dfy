/** A fleet of proxy instances sharing one Redis, each with its own circuit breaker and its own
    in-memory fallback (internal/limiter/manager.go, internal/limiter/redis.go,
    internal/limiter/memory.go).

    Instants are whole milliseconds of one global clock; the parts that count nanoseconds are told
    the same instants in nanoseconds. */
module Fleet {
  import opened Policies
  import opened SlidingWindow
  import B = Breaker
  import E = Eviction
  import Q = SharedRedis
  import Members

  /** Where a call of AllowPolicy stands. Stamps are in nanoseconds. */
  datatype Phase =
    | Granted(key: string)  // tryPrimary said yes
    | Waiting(key: string)  // a message has been sent to Redis
    | Fallen(key: string)   // Redis may not be asked, or has not answered
    | Local(key: string)    // inside the in-memory limiter
    | Done(key: string, stamp: int, allowed: bool, viaRedis: bool)

  datatype Instance = Instance(
    circuit: B.Circuit,
    mem: E.State,
    calls: map<nat, Phase>,
    counter: nat,
    redisServed: nat,
    fallbackServed: nat)

  datatype State = State(redis: Q.State, instances: seq<Instance>)

  /** What never changes: the instances' names, one policy for everyone, the breaker's settings. */
  datatype World = World(names: seq<string>, p: Policy, rules: Q.Rules, cfg: B.Config, minTTL: int) {
    ghost predicate Usable() {
      && p.Enforceable() && rules.Usable()
      && p.limit == rules.limit && p.window == rules.window * MILLISECOND
      && (forall i :: 0 <= i < |names| ==> '-' !in names[i])
      && (forall i, j :: 0 <= i < j < |names| ==> names[i] != names[j])
    }
  }

  datatype Step =
    | Begin(i: nat, t: nat, key: string)
    | Send(i: nat, t: nat)
    | Exec(c: Q.Caller)
    | Succeed(i: nat, t: nat, allowed: bool)
    | Fail(i: nat, t: nat, err: string)
    | Abandon(i: nat, t: nat)
    | GoLocal(i: nat, t: nat)
    | Mem(i: nat, inner: E.Step)
    | Finish(i: nat, t: nat)
    | Ping(i: nat, ping: B.Ping)

  predicate Asking(inst: Instance, t: nat) {
    t in inst.calls && (inst.calls[t].Granted? || inst.calls[t].Waiting?)
  }

  predicate Enabled(s: State, step: Step) {
    && (!step.Exec? ==> step.i < |s.instances|)
    && match step
       case Begin(i, t, _) => t !in s.instances[i].calls
       case Send(i, t) => t in s.instances[i].calls && s.instances[i].calls[t].Granted?
       case Exec(c) => c in s.redis.messages
       case Succeed(i, t, allowed) =>
         && t in s.instances[i].calls && s.instances[i].calls[t].Waiting?
         && Q.Caller(i, t) in s.redis.messages
         && var m := s.redis.messages[Q.Caller(i, t)]; allowed in m.replies || allowed in m.late
       case Fail(i, t, _) => Asking(s.instances[i], t)
       case Abandon(i, t) => Asking(s.instances[i], t)
       case GoLocal(i, t) =>
         t in s.instances[i].calls && s.instances[i].calls[t].Fallen? && t !in s.instances[i].mem.threads
       case Mem(i, inner) => !inner.CallAllow? && E.Enabled(s.instances[i].mem, inner)
       case Finish(i, t) =>
         && t in s.instances[i].calls && s.instances[i].calls[t].Local?
         && t in s.instances[i].mem.threads && s.instances[i].mem.threads[t].Returned?
       case Ping(_, _) => true
  }

  function Goto(inst: Instance, t: nat, phase: Phase): Instance {
    inst.(calls := inst.calls[t := phase])
  }

  function MemberOf(w: World, i: nat, now: nat, counter: nat): string
    requires i < |w.names|
  {
    Members.Render(w.names[i], now * MILLISECOND, counter)
  }

  /** What a step does to its own instance. */
  function Own(s: State, step: Step, now: nat, w: World): Instance
    requires Enabled(s, step) && !step.Exec?
  {
    var inst := s.instances[step.i];
    match step
    case Begin(_, t, key) =>
      var r := B.Asked(inst.circuit, now * MILLISECOND, w.cfg);
      Goto(inst.(circuit := r.0), t, if r.1 then Granted(key) else Fallen(key))
    case Send(_, t) =>
      Goto(inst.(counter := (inst.counter + 1) % Members.COUNTER_RANGE), t, Waiting(inst.calls[t].key))
    case Succeed(i, t, allowed) =>
      var m := s.redis.messages[Q.Caller(i, t)];
      Goto(inst.(circuit := B.AfterSuccess(inst.circuit), redisServed := inst.redisServed + 1), t,
           Done(m.key, m.stamp * MILLISECOND, allowed, true))
    case Fail(_, t, err) =>
      Goto(inst.(circuit := B.AfterFailure(inst.circuit, err, now * MILLISECOND, w.cfg)), t, Fallen(inst.calls[t].key))
    case Abandon(_, t) =>
      Goto(inst, t, Fallen(inst.calls[t].key))
    case GoLocal(_, t) =>
      Goto(inst.(mem := E.Next(inst.mem, E.CallAllow(t, inst.calls[t].key, w.p), now * MILLISECOND, w.minTTL)), t,
           Local(inst.calls[t].key))
    case Mem(_, inner) =>
      inst.(mem := E.Next(inst.mem, inner, now * MILLISECOND, w.minTTL))
    case Finish(_, t) =>
      var th := inst.mem.threads[t];
      Goto(inst.(fallbackServed := inst.fallbackServed + 1), t, Done(inst.calls[t].key, th.stamp, th.allowed, false))
    case Ping(_, ping) =>
      inst.(circuit := B.Apply(inst.circuit, B.PingEvent(ping), w.cfg))
  }

  ghost function Redis(s: State, step: Step, now: nat, w: World): Q.State
    requires Enabled(s, step) && (!step.Exec? ==> step.i < |w.names|)
  {
    match step
    case Send(i, t) =>
      var inst := s.instances[i];
      Q.Send(s.redis, Q.Caller(i, t), inst.calls[t].key,
             MemberOf(w, i, now, (inst.counter + 1) % Members.COUNTER_RANGE), now)
    case Exec(c) => Q.Exec(s.redis, c, now, w.rules)
    case _ => s.redis
  }

  ghost function Next(s: State, step: Step, now: nat, w: World): State
    requires Enabled(s, step) && |s.instances| == |w.names|
  {
    State(Redis(s, step, now, w),
          if step.Exec? then s.instances else s.instances[step.i := Own(s, step, now, w)])
  }

  /** A caller takes a reply from Redis only within the lag of its look at the clock, which is what its
      timeout is for, and takes its steps inside a limiter within the lag; nobody resets; no instance
      makes 2^64 calls. When scripts run is not restricted. */
  predicate Timely(s: State, step: Step, now: nat, w: World)
    requires Enabled(s, step)
  {
    match step
    case Send(i, _) => s.instances[i].counter + 1 < Members.COUNTER_RANGE
    case Succeed(i, t, _) =>
      Q.Caller(i, t) in s.redis.messages && Q.Prompt(s.redis.messages[Q.Caller(i, t)], now, w.rules)
    case Mem(i, inner) => E.Timely(s.instances[i].mem, inner, now * MILLISECOND, w.p, w.rules.lag * MILLISECOND)
    case _ => true
  }

  // ---------------------------------------------------------------- the fallback limiters

  ghost predicate MemOk(mem: E.State, now: nat, w: World) {
    E.Windows(mem, now * MILLISECOND, w.p, w.rules.lag * MILLISECOND) && E.Backed(mem)
  }

  ghost predicate MemsOk(s: State, now: nat, w: World) {
    forall i :: 0 <= i < |s.instances| ==> MemOk(s.instances[i].mem, now, w)
  }

  lemma MemStep(mem: E.State, inner: E.Step, now: nat, w: World)
    requires MemOk(mem, now, w) && E.Enabled(mem, inner)
    requires E.Timely(mem, inner, now * MILLISECOND, w.p, w.rules.lag * MILLISECOND)
    ensures MemOk(E.Next(mem, inner, now * MILLISECOND, w.minTTL), now, w)
  {
    E.WindowsKept(mem, inner, now * MILLISECOND, w.minTTL, w.p, w.rules.lag * MILLISECOND);
    E.BackedKept(mem, inner, now * MILLISECOND, w.minTTL);
  }

  lemma MemLater(mem: E.State, now: nat, now': nat, w: World)
    requires MemOk(mem, now, w) && now <= now'
    ensures MemOk(mem, now', w)
  {
    E.TimePasses(mem, now * MILLISECOND, now' * MILLISECOND, w.p, w.rules.lag * MILLISECOND);
  }

  lemma OwnMem(s: State, step: Step, now: nat, w: World)
    requires Enabled(s, step) && !step.Exec? && Timely(s, step, now, w) && w.Usable()
    requires MemOk(s.instances[step.i].mem, now, w)
    ensures MemOk(Own(s, step, now, w).mem, now, w)
  {
    var mem := s.instances[step.i].mem;
    match step
    case GoLocal(i, t) => MemStep(mem, E.CallAllow(t, s.instances[i].calls[t].key, w.p), now, w);
    case Mem(_, inner) => MemStep(mem, inner, now, w);
    case _ =>
  }

  lemma MemsKept(s: State, step: Step, now: nat, w: World, s': State)
    requires Enabled(s, step) && Timely(s, step, now, w) && w.Usable() && |s.instances| == |w.names|
    requires MemsOk(s, now, w) && s' == Next(s, step, now, w)
    ensures MemsOk(s', now, w)
  {
    if !step.Exec? { OwnMem(s, step, now, w); }
  }

  // ---------------------------------------------------------------- what the calls know

  /** What is recorded elsewhere about a call, by its phase. */
  ghost predicate CallOk(messages: map<Q.Caller, Q.Message>, threads: map<E.ThreadId, E.Thread>, c: Q.Caller,
                         phase: Phase)
  {
    match phase
    case Granted(_) => c !in messages
    case Waiting(key) => c in messages && messages[c].key == key
    case Fallen(_) => true
    case Local(key) => InCall(threads, c.call, key)
    case Done(key, stamp, allowed, true) =>
      && c in messages && messages[c].key == key && messages[c].stamp * MILLISECOND == stamp
      && allowed in messages[c].replies
    case Done(key, stamp, allowed, false) =>
      && c.call in threads && threads[c.call].Returned?
      && threads[c.call].key == key && threads[c.call].stamp == stamp && threads[c.call].allowed == allowed
  }

  ghost predicate InCall(threads: map<E.ThreadId, E.Thread>, t: nat, key: string) {
    t in threads && (E.InAllow(threads[t]) || threads[t].Returned?) && threads[t].key == key
  }

  ghost predicate CallsOk(messages: map<Q.Caller, Q.Message>, inst: Instance, i: nat) {
    forall t :: t in inst.calls ==> CallOk(messages, inst.mem.threads, Q.Caller(i, t), inst.calls[t])
  }

  /** Messages are sent by calls, and carry the caller's next member id. */
  ghost predicate SentOk(s: State, c: Q.Caller, w: World)
    requires c in s.redis.messages && |s.instances| == |w.names|
  {
    && c.inst < |s.instances| && c.call in s.instances[c.inst].calls
    && s.redis.messages[c].stamp >= 0
    && exists k: nat :: k <= s.instances[c.inst].counter
                        && s.redis.messages[c].member == MemberOf(w, c.inst, s.redis.messages[c].stamp, k)
  }

  ghost predicate BooksOk(s: State, w: World) {
    && |s.instances| == |w.names|
    && (forall c :: c in s.redis.messages ==> SentOk(s, c, w))
    && (forall i :: 0 <= i < |s.instances| ==> CallsOk(s.redis.messages, s.instances[i], i))
  }

  /** Inside the in-memory limiter a call stays with its key, and an answer is final. */
  lemma ThreadStays(mem: E.State, inner: E.Step, now: int, minTTL: int, t: nat)
    requires E.Enabled(mem, inner) && t in mem.threads && (E.InAllow(mem.threads[t]) || mem.threads[t].Returned?)
    ensures var mem' := E.Next(mem, inner, now, minTTL);
            && InCall(mem'.threads, t, mem.threads[t].key)
            && (mem.threads[t].Returned? ==> mem'.threads[t] == mem.threads[t])
  {
    if inner.Advance? && inner.t == t {
      match mem.threads[t] case _ =>
    } else {
      OtherThread(mem, inner, now, minTTL, t);
    }
  }

  lemma OtherThread(mem: E.State, inner: E.Step, now: int, minTTL: int, t: nat)
    requires E.Enabled(mem, inner) && t in mem.threads && inner.t != t
    ensures t in E.Next(mem, inner, now, minTTL).threads && E.Next(mem, inner, now, minTTL).threads[t] == mem.threads[t]
  {
    if inner.Advance? {
      OtherInAllow(mem, inner.t, now, t);
      OtherInSweep(mem, inner.t, minTTL, t);
    }
  }

  lemma OtherInAllow(mem: E.State, u: nat, now: int, t: nat)
    requires E.Enabled(mem, E.Advance(u)) && t in mem.threads && u != t
    ensures t in E.AllowStep(mem, u, now).threads && E.AllowStep(mem, u, now).threads[t] == mem.threads[t]
  {
  }

  lemma OtherInSweep(mem: E.State, u: nat, minTTL: int, t: nat)
    requires E.Enabled(mem, E.Advance(u)) && t in mem.threads && u != t
    ensures t in E.SweepStep(mem, u, minTTL).threads && E.SweepStep(mem, u, minTTL).threads[t] == mem.threads[t]
  {
  }

  // ---------------------------------------------------------------- keeping the books

  /** Messages stay as they are but for further replies. */
  ghost predicate Grows(messages: map<Q.Caller, Q.Message>, messages': map<Q.Caller, Q.Message>) {
    forall c :: c in messages ==>
      && c in messages'
      && messages'[c].key == messages[c].key && messages'[c].stamp == messages[c].stamp
      && messages'[c].member == messages[c].member && messages[c].replies <= messages'[c].replies
  }

  /** A call that is not the sender of a new message keeps its books. */
  lemma CallFrame(messages: map<Q.Caller, Q.Message>, messages': map<Q.Caller, Q.Message>,
                  threads: map<E.ThreadId, E.Thread>, c: Q.Caller, phase: Phase)
    requires CallOk(messages, threads, c, phase) && Grows(messages, messages') && (c in messages' ==> c in messages)
    ensures CallOk(messages', threads, c, phase)
  {
  }

  lemma CallsFrame(messages: map<Q.Caller, Q.Message>, messages': map<Q.Caller, Q.Message>, inst: Instance, i: nat)
    requires CallsOk(messages, inst, i) && Grows(messages, messages')
    requires forall c :: c in messages' && c !in messages ==> c.inst != i
    ensures CallsOk(messages', inst, i)
  {
    forall t | t in inst.calls ensures CallOk(messages', inst.mem.threads, Q.Caller(i, t), inst.calls[t]) {
      CallFrame(messages, messages', inst.mem.threads, Q.Caller(i, t), inst.calls[t]);
    }
  }

  /** A step of the in-memory limiter keeps the books of every call. */
  lemma ThreadsFrame(messages: map<Q.Caller, Q.Message>, mem: E.State, inner: E.Step, now: int, minTTL: int,
                     c: Q.Caller, phase: Phase)
    requires E.Enabled(mem, inner) && CallOk(messages, mem.threads, c, phase)
    ensures CallOk(messages, E.Next(mem, inner, now, minTTL).threads, c, phase)
  {
    if phase.Local? || (phase.Done? && !phase.viaRedis) {
      ThreadStays(mem, inner, now, minTTL, c.call);
    }
  }

  /** Moving one call of an instance on. */
  lemma GotoOk(messages: map<Q.Caller, Q.Message>, inst: Instance, i: nat, t: nat, phase: Phase)
    requires CallsOk(messages, inst, i) && CallOk(messages, inst.mem.threads, Q.Caller(i, t), phase)
    ensures CallsOk(messages, Goto(inst, t, phase), i)
  {
  }

  lemma MemCallsOk(messages: map<Q.Caller, Q.Message>, inst: Instance, i: nat, inner: E.Step, now: int, minTTL: int)
    requires CallsOk(messages, inst, i) && E.Enabled(inst.mem, inner)
    ensures CallsOk(messages, inst.(mem := E.Next(inst.mem, inner, now, minTTL)), i)
  {
    forall t | t in inst.calls
      ensures CallOk(messages, E.Next(inst.mem, inner, now, minTTL).threads, Q.Caller(i, t), inst.calls[t])
    {
      ThreadsFrame(messages, inst.mem, inner, now, minTTL, Q.Caller(i, t), inst.calls[t]);
    }
  }

  /** The counters do not appear in the books of the calls. */
  lemma SameCalls(messages: map<Q.Caller, Q.Message>, inst: Instance, inst': Instance, i: nat)
    requires CallsOk(messages, inst, i) && inst'.calls == inst.calls && inst'.mem == inst.mem
    ensures CallsOk(messages, inst', i)
  {
  }

  /** A reply is taken while it counts. */
  ghost predicate OnTime(s: State, step: Step) {
    step.Succeed? && Q.Caller(step.i, step.t) in s.redis.messages ==>
      step.allowed in s.redis.messages[Q.Caller(step.i, step.t)].replies
  }

  lemma TimelyIsOnTime(s: State, step: Step, now: nat, w: World)
    requires Enabled(s, step) && Timely(s, step, now, w) && Q.Ok(s.redis, now, w.rules)
    ensures OnTime(s, step)
  {
    if step.Succeed? {
      var m := s.redis.messages[Q.Caller(step.i, step.t)];
      assert Q.LateOk(m, now, w.rules);
    }
  }

  lemma OwnCallsOk(s: State, step: Step, now: nat, w: World)
    requires Enabled(s, step) && !step.Exec? && !step.Send? && BooksOk(s, w) && OnTime(s, step)
    ensures CallsOk(s.redis.messages, Own(s, step, now, w), step.i)
  {
    var messages, inst := s.redis.messages, s.instances[step.i];
    match step
    case Begin(i, t, key) =>
      assert Q.Caller(i, t) !in messages;
      var r := B.Asked(inst.circuit, now * MILLISECOND, w.cfg);
      SameCalls(messages, inst, inst.(circuit := r.0), i);
      GotoOk(messages, inst.(circuit := r.0), i, t, if r.1 then Granted(key) else Fallen(key));
    case Succeed(i, t, allowed) =>
      var m := messages[Q.Caller(i, t)];
      var inst1 := inst.(circuit := B.AfterSuccess(inst.circuit), redisServed := inst.redisServed + 1);
      SameCalls(messages, inst, inst1, i);
      GotoOk(messages, inst1, i, t, Done(m.key, m.stamp * MILLISECOND, allowed, true));
    case Fail(i, t, err) =>
      var inst1 := inst.(circuit := B.AfterFailure(inst.circuit, err, now * MILLISECOND, w.cfg));
      SameCalls(messages, inst, inst1, i);
      GotoOk(messages, inst1, i, t, Fallen(inst.calls[t].key));
    case Abandon(i, t) =>
      GotoOk(messages, inst, i, t, Fallen(inst.calls[t].key));
    case GoLocal(i, t) =>
      var key := inst.calls[t].key;
      MemCallsOk(messages, inst, i, E.CallAllow(t, key, w.p), now * MILLISECOND, w.minTTL);
      var inst1 := inst.(mem := E.Next(inst.mem, E.CallAllow(t, key, w.p), now * MILLISECOND, w.minTTL));
      GotoOk(messages, inst1, i, t, Local(key));
    case Mem(i, inner) =>
      MemCallsOk(messages, inst, i, inner, now * MILLISECOND, w.minTTL);
    case Finish(i, t) =>
      var th := inst.mem.threads[t];
      assert CallOk(messages, inst.mem.threads, Q.Caller(i, t), inst.calls[t]);
      var inst1 := inst.(fallbackServed := inst.fallbackServed + 1);
      SameCalls(messages, inst, inst1, i);
      GotoOk(messages, inst1, i, t, Done(inst.calls[t].key, th.stamp, th.allowed, false));
    case Ping(i, ping) =>
      SameCalls(messages, inst, inst.(circuit := B.Apply(inst.circuit, B.PingEvent(ping), w.cfg)), i);
  }

  lemma ExecGrows(s: Q.State, c: Q.Caller, now: int, rules: Q.Rules)
    requires c in s.messages
    ensures Grows(s.messages, Q.Exec(s, c, now, rules).messages)
    ensures Q.Exec(s, c, now, rules).messages.Keys == s.messages.Keys
  {
  }

  /** Sending adds one message and moves its caller on. */
  lemma SenderCallsOk(messages: map<Q.Caller, Q.Message>, inst: Instance, i: nat, t: nat, m: Q.Message)
    requires CallsOk(messages, inst, i) && Q.Caller(i, t) !in messages
    ensures CallsOk(messages[Q.Caller(i, t) := m], Goto(inst, t, Waiting(m.key)), i)
  {
    var messages', inst' := messages[Q.Caller(i, t) := m], Goto(inst, t, Waiting(m.key));
    forall u | u in inst'.calls
      ensures CallOk(messages', inst'.mem.threads, Q.Caller(i, u), inst'.calls[u])
    {
      if u != t {
        CallFrame(messages, messages', inst.mem.threads, Q.Caller(i, u), inst.calls[u]);
      }
    }
  }

  lemma NotYetSent(s: State, i: nat, t: nat, w: World)
    requires BooksOk(s, w) && i < |s.instances| && t in s.instances[i].calls && s.instances[i].calls[t].Granted?
    ensures Q.Caller(i, t) !in s.redis.messages
  {
    assert CallsOk(s.redis.messages, s.instances[i], i);
  }

  lemma SendCallsOk(s: State, i: nat, t: nat, now: nat, w: World)
    requires i < |s.instances| == |w.names| && t in s.instances[i].calls && s.instances[i].calls[t].Granted?
    requires CallsOk(s.redis.messages, s.instances[i], i) && Q.Caller(i, t) !in s.redis.messages
    ensures CallsOk(Redis(s, Send(i, t), now, w).messages, Own(s, Send(i, t), now, w), i)
  {
    var inst := s.instances[i];
    var counter := (inst.counter + 1) % Members.COUNTER_RANGE;
    var m := Q.Message(inst.calls[t].key, now, MemberOf(w, i, now, counter), {}, {});
    SameCalls(s.redis.messages, inst, inst.(counter := counter), i);
    SenderCallsOk(s.redis.messages, inst.(counter := counter), i, t, m);
  }

  /** How the messages change in a step. */
  lemma MessagesGrow(s: State, step: Step, now: nat, w: World, messages': map<Q.Caller, Q.Message>)
    requires Enabled(s, step) && BooksOk(s, w) && messages' == Redis(s, step, now, w).messages
    ensures Grows(s.redis.messages, messages')
    ensures forall c :: c in messages' && c !in s.redis.messages ==> step.Send? && c == Q.Caller(step.i, step.t)
  {
    match step
    case Send(i, t) =>
      NotYetSent(s, i, t, w);
    case Exec(c) => ExecGrows(s.redis, c, now, w.rules);
    case _ =>
  }

  lemma AllCallsOk(s: State, step: Step, now: nat, w: World, s': State)
    requires Enabled(s, step) && BooksOk(s, w) && OnTime(s, step) && s' == Next(s, step, now, w)
    ensures forall i :: 0 <= i < |s'.instances| ==> CallsOk(s'.redis.messages, s'.instances[i], i)
  {
    MessagesGrow(s, step, now, w, s'.redis.messages);
    forall i | 0 <= i < |s'.instances| ensures CallsOk(s'.redis.messages, s'.instances[i], i) {
      if step.Exec? || i != step.i {
        CallsFrame(s.redis.messages, s'.redis.messages, s.instances[i], i);
      } else if step.Send? {
        NotYetSent(s, i, step.t, w);
        SendCallsOk(s, i, step.t, now, w);
      } else {
        OwnCallsOk(s, step, now, w);
      }
    }
  }

  /** Calls are never forgotten and member ids never taken back. */
  lemma OwnGrows(s: State, step: Step, now: nat, w: World)
    requires Enabled(s, step) && !step.Exec? && Timely(s, step, now, w)
    ensures var inst, inst' := s.instances[step.i], Own(s, step, now, w);
            && inst.calls.Keys <= inst'.calls.Keys
            && inst'.counter == if step.Send? then inst.counter + 1 else inst.counter
  {
  }

  lemma SentStays(s: State, s': State, c: Q.Caller, w: World)
    requires |s.instances| == |s'.instances| == |w.names| && c in s.redis.messages && SentOk(s, c, w)
    requires Grows(s.redis.messages, s'.redis.messages)
    requires s.instances[c.inst].calls.Keys <= s'.instances[c.inst].calls.Keys
    requires s.instances[c.inst].counter <= s'.instances[c.inst].counter
    ensures SentOk(s', c, w)
  {
    var k: nat :| k <= s.instances[c.inst].counter
                  && s.redis.messages[c].member == MemberOf(w, c.inst, s.redis.messages[c].stamp, k);
  }

  lemma SentNow(s: State, step: Step, now: nat, w: World, s': State)
    requires Enabled(s, step) && step.Send? && BooksOk(s, w) && Timely(s, step, now, w) && s' == Next(s, step, now, w)
    ensures SentOk(s', Q.Caller(step.i, step.t), w)
  {
    OwnGrows(s, step, now, w);
    var k := s'.instances[step.i].counter;
    assert s'.redis.messages[Q.Caller(step.i, step.t)].member == MemberOf(w, step.i, now, k);
  }

  /** Every instance keeps its calls and does not turn its counter back. */
  ghost predicate InstancesGrow(s: State, s': State) {
    && |s'.instances| == |s.instances|
    && forall i :: 0 <= i < |s.instances| ==>
         && s.instances[i].calls.Keys <= s'.instances[i].calls.Keys
         && s.instances[i].counter <= s'.instances[i].counter
  }

  lemma AllGrow(s: State, step: Step, now: nat, w: World, s': State)
    requires Enabled(s, step) && Timely(s, step, now, w) && |s.instances| == |w.names| && s' == Next(s, step, now, w)
    ensures InstancesGrow(s, s')
  {
    if !step.Exec? { OwnGrows(s, step, now, w); }
  }

  lemma AllSentOk(s: State, step: Step, now: nat, w: World, s': State)
    requires Enabled(s, step) && BooksOk(s, w) && Timely(s, step, now, w) && s' == Next(s, step, now, w)
    requires Grows(s.redis.messages, s'.redis.messages) && InstancesGrow(s, s')
    requires forall c :: c in s'.redis.messages && c !in s.redis.messages ==>
               step.Send? && c == Q.Caller(step.i, step.t)
    ensures forall c :: c in s'.redis.messages ==> SentOk(s', c, w)
  {
    forall c | c in s'.redis.messages ensures SentOk(s', c, w) {
      if c in s.redis.messages {
        assert SentOk(s, c, w);
        SentStays(s, s', c, w);
      } else {
        SentNow(s, step, now, w, s');
      }
    }
  }

  lemma BooksKept(s: State, step: Step, now: nat, w: World, s': State)
    requires Enabled(s, step) && BooksOk(s, w) && Timely(s, step, now, w) && OnTime(s, step)
    requires s' == Next(s, step, now, w)
    ensures BooksOk(s', w)
  {
    AllCallsOk(s, step, now, w, s');
    MessagesGrow(s, step, now, w, s'.redis.messages);
    AllGrow(s, step, now, w, s');
    AllSentOk(s, step, now, w, s');
  }

  // ---------------------------------------------------------------- the shared server

  /** Member ids of different instances, or with different counters, differ. */
  lemma MembersDiffer(w: World, i: nat, now: nat, k: nat, j: nat, earlier: nat, l: nat)
    requires w.Usable() && i < |w.names| && j < |w.names| && (i == j ==> k != l)
    ensures MemberOf(w, i, now, k) != MemberOf(w, j, earlier, l)
  {
    if MemberOf(w, i, now, k) == MemberOf(w, j, earlier, l) {
      Members.RenderInjective(w.names[i], now * MILLISECOND, k, w.names[j], earlier * MILLISECOND, l);
    }
  }

  /** A new member id is unlike every one sent before. */
  lemma FreshMember(s: State, i: nat, now: nat, w: World, d: Q.Caller)
    requires BooksOk(s, w) && w.Usable() && i < |s.instances| && d in s.redis.messages
    ensures s.redis.messages[d].member != MemberOf(w, i, now, s.instances[i].counter + 1)
  {
    assert SentOk(s, d, w);
    var stamp := s.redis.messages[d].stamp;
    var k: nat :| k <= s.instances[d.inst].counter && s.redis.messages[d].member == MemberOf(w, d.inst, stamp, k);
    MembersDiffer(w, i, now, s.instances[i].counter + 1, d.inst, stamp, k);
  }

  lemma SendKeepsRedis(s: State, i: nat, t: nat, now: nat, w: World, key: string, member: string, redis': Q.State)
    requires i < |s.instances| && t in s.instances[i].calls && s.instances[i].calls[t] == Granted(key)
    requires w.Usable() && BooksOk(s, w) && Q.Ok(s.redis, now, w.rules)
    requires member == MemberOf(w, i, now, s.instances[i].counter + 1)
    requires redis' == Q.Send(s.redis, Q.Caller(i, t), key, member, now)
    ensures Q.Ok(redis', now, w.rules)
  {
    forall d | d in s.redis.messages ensures s.redis.messages[d].member != member {
      FreshMember(s, i, now, w, d);
    }
    NotYetSent(s, i, t, w);
    Q.SendKeeps(s.redis, Q.Caller(i, t), key, member, now, w.rules);
  }

  lemma RedisKept(s: State, step: Step, now: nat, w: World, redis': Q.State)
    requires Enabled(s, step) && Timely(s, step, now, w) && w.Usable() && BooksOk(s, w)
    requires Q.Ok(s.redis, now, w.rules) && redis' == Redis(s, step, now, w)
    ensures Q.Ok(redis', now, w.rules)
  {
    match step
    case Send(i, t) =>
      var inst := s.instances[i];
      SmallCounter(inst.counter);
      SendKeepsRedis(s, i, t, now, w, inst.calls[t].key, MemberOf(w, i, now, inst.counter + 1), redis');
    case Exec(c) => Q.ExecKeeps(s.redis, c, now, w.rules);
    case _ =>
  }

  lemma SmallCounter(counter: nat)
    requires counter + 1 < Members.COUNTER_RANGE
    ensures (counter + 1) % Members.COUNTER_RANGE == counter + 1
  {
  }

  // ---------------------------------------------------------------- who served what

  function Served(calls: map<nat, Phase>, viaRedis: bool): set<nat> {
    set t | t in calls && calls[t].Done? && calls[t].viaRedis == viaRedis
  }

  function Finished(calls: map<nat, Phase>): set<nat> {
    set t | t in calls && calls[t].Done?
  }

  ghost predicate CountsOk(inst: Instance) {
    inst.redisServed == |Served(inst.calls, true)| && inst.fallbackServed == |Served(inst.calls, false)|
  }

  lemma ServedOneMore(calls: map<nat, Phase>, t: nat, phase: Phase)
    requires (t in calls ==> !calls[t].Done?) && phase.Done?
    ensures |Served(calls[t := phase], phase.viaRedis)| == |Served(calls, phase.viaRedis)| + 1
  {
    var before, after := Served(calls, phase.viaRedis), Served(calls[t := phase], phase.viaRedis);
    assert t !in before && after == before + {t};
  }

  lemma ServedNoMore(calls: map<nat, Phase>, t: nat, phase: Phase, viaRedis: bool)
    requires (t in calls ==> !calls[t].Done?) && !(phase.Done? && phase.viaRedis == viaRedis)
    ensures Served(calls[t := phase], viaRedis) == Served(calls, viaRedis)
  {
  }

  lemma ServedAfter(calls: map<nat, Phase>, t: nat, phase: Phase, viaRedis: bool)
    requires t in calls ==> !calls[t].Done?
    ensures |Served(calls[t := phase], viaRedis)|
            == |Served(calls, viaRedis)| + if phase.Done? && phase.viaRedis == viaRedis then 1 else 0
  {
    if phase.Done? && phase.viaRedis == viaRedis {
      ServedOneMore(calls, t, phase);
    } else {
      ServedNoMore(calls, t, phase, viaRedis);
    }
  }

  lemma OwnCounts(s: State, step: Step, now: nat, w: World)
    requires Enabled(s, step) && !step.Exec? && CountsOk(s.instances[step.i])
    ensures CountsOk(Own(s, step, now, w))
  {
    var inst, inst' := s.instances[step.i], Own(s, step, now, w);
    if !step.Mem? && !step.Ping? {
      ServedAfter(inst.calls, step.t, inst'.calls[step.t], true);
      ServedAfter(inst.calls, step.t, inst'.calls[step.t], false);
      OneCallMoves(s, step, now, w);
    }
  }

  lemma OneCallMoves(s: State, step: Step, now: nat, w: World)
    requires Enabled(s, step) && !step.Exec? && !step.Mem? && !step.Ping?
    ensures var inst, inst' := s.instances[step.i], Own(s, step, now, w);
            && step.t in inst'.calls && inst'.calls == inst.calls[step.t := inst'.calls[step.t]]
            && (step.t in inst.calls ==> !inst.calls[step.t].Done?)
            && inst'.redisServed == inst.redisServed + (if step.Succeed? then 1 else 0)
            && inst'.fallbackServed == inst.fallbackServed + (if step.Finish? then 1 else 0)
            && (inst'.calls[step.t].Done? <==> step.Succeed? || step.Finish?)
            && (inst'.calls[step.t].Done? ==> inst'.calls[step.t].viaRedis == step.Succeed?)
  {
  }

  // ---------------------------------------------------------------- every step

  ghost predicate Ok(s: State, now: nat, w: World) {
    && w.Usable()
    && BooksOk(s, w)
    && Q.Ok(s.redis, now, w.rules)
    && MemsOk(s, now, w)
    && forall i :: 0 <= i < |s.instances| ==> CountsOk(s.instances[i])
  }

  lemma CountsKept(s: State, step: Step, now: nat, w: World, s': State)
    requires Enabled(s, step) && |s.instances| == |w.names| && s' == Next(s, step, now, w)
    requires forall i :: 0 <= i < |s.instances| ==> CountsOk(s.instances[i])
    ensures forall i :: 0 <= i < |s'.instances| ==> CountsOk(s'.instances[i])
  {
    if !step.Exec? { OwnCounts(s, step, now, w); }
  }

  lemma StepKeeps(s: State, step: Step, now: nat, w: World)
    requires Ok(s, now, w) && Enabled(s, step) && Timely(s, step, now, w)
    ensures Ok(Next(s, step, now, w), now, w)
  {
    var s' := Next(s, step, now, w);
    TimelyIsOnTime(s, step, now, w);
    BooksKept(s, step, now, w, s');
    RedisKept(s, step, now, w, s'.redis);
    MemsKept(s, step, now, w, s');
    CountsKept(s, step, now, w, s');
  }

  lemma TimePasses(s: State, now: nat, now': nat, w: World)
    requires Ok(s, now, w) && now <= now'
    ensures Ok(s, now', w)
  {
    Q.TimePasses(s.redis, now, now', w.rules);
    forall i | 0 <= i < |s.instances| ensures MemOk(s.instances[i].mem, now', w) {
      MemLater(s.instances[i].mem, now, now', w);
    }
  }

  // ---------------------------------------------------------------- the bound

  predicate IsAdmitted(phase: Phase, key: string, lo: int, hi: int) {
    phase.Done? && phase.key == key && phase.allowed && lo < phase.stamp <= hi
  }

  /** The calls of the whole fleet that were allowed for a key, by the stamp they read. */
  function Admitted(s: State, key: string, lo: int, hi: int): set<Q.Caller> {
    set i: nat, t | i < |s.instances| && t in s.instances[i].calls && IsAdmitted(s.instances[i].calls[t], key, lo, hi)
                  :: Q.Caller(i, t)
  }

  /** Admissions on entries the janitor had thrown away, over the first n instances. */
  function Detached(s: State, key: string, lo: int, hi: int, n: nat): nat
    requires n <= |s.instances|
  {
    if n == 0 then 0
    else Detached(s, key, lo, hi, n - 1) + |E.DetachedAnswers(s.instances[n - 1].mem, key, lo, hi)|
  }

  function CallersOf(inst: nat, calls: set<nat>): set<Q.Caller> {
    set t | t in calls :: Q.Caller(inst, t)
  }

  /** The admissions of the in-memory limiters of the first n instances. */
  function LocalUpTo(s: State, key: string, lo: int, hi: int, n: nat): set<Q.Caller>
    requires n <= |s.instances|
  {
    if n == 0 then {}
    else
      LocalUpTo(s, key, lo, hi, n - 1) + CallersOf(n - 1, E.Answers(s.instances[n - 1].mem, key, lo, hi))
  }

  lemma CallersOfSize(inst: nat, calls: set<nat>)
    ensures |CallersOf(inst, calls)| <= |calls|
  {
    if calls != {} {
      var x :| x in calls;
      CallersOfSize(inst, calls - {x});
      assert CallersOf(inst, calls) == CallersOf(inst, calls - {x}) + {Q.Caller(inst, x)};
    }
  }

  lemma MemWindow(mem: E.State, now: nat, w: World, key: string, lo: int, hi: int)
    requires MemOk(mem, now, w) && hi == lo + w.p.window - w.rules.lag * MILLISECOND
    ensures |E.Answers(mem, key, lo, hi)| <= w.p.limit + |E.DetachedAnswers(mem, key, lo, hi)|
  {
    E.WindowNow(mem, now * MILLISECOND, w.p, w.rules.lag * MILLISECOND, key, lo);
  }

  /** A limiter's answers for a window stay within the limit, but for detached entries. */
  ghost predicate MemBounded(mem: E.State, key: string, lo: int, hi: int, limit: int) {
    |E.Answers(mem, key, lo, hi)| <= limit + |E.DetachedAnswers(mem, key, lo, hi)|
  }

  lemma MemsBounded(s: State, now: nat, w: World, key: string, lo: int, hi: int)
    requires MemsOk(s, now, w) && hi == lo + w.p.window - w.rules.lag * MILLISECOND
    ensures forall i :: 0 <= i < |s.instances| ==> MemBounded(s.instances[i].mem, key, lo, hi, w.p.limit)
  {
    forall i | 0 <= i < |s.instances| ensures MemBounded(s.instances[i].mem, key, lo, hi, w.p.limit) {
      MemWindow(s.instances[i].mem, now, w, key, lo, hi);
    }
  }

  /** One more limiter on top of the others, which admit at most `others` but for detached entries. */
  lemma LocalStep(s: State, key: string, lo: int, hi: int, n: nat, limit: int, others: int)
    requires 0 < n <= |s.instances| && MemBounded(s.instances[n - 1].mem, key, lo, hi, limit)
    requires |LocalUpTo(s, key, lo, hi, n - 1)| <= others + Detached(s, key, lo, hi, n - 1)
    ensures |LocalUpTo(s, key, lo, hi, n)| <= others + limit + Detached(s, key, lo, hi, n)
  {
    var answers := E.Answers(s.instances[n - 1].mem, key, lo, hi);
    CallersOfSize(n - 1, answers);
    UnionSize(LocalUpTo(s, key, lo, hi, n - 1), CallersOf(n - 1, answers));
  }

  /** All limiters together admit at most `limit` each, not counting detached entries. */
  lemma {:induction false} LocalSize(s: State, key: string, lo: int, hi: int, n: nat, limit: int)
    requires n <= |s.instances|
    requires forall i :: 0 <= i < |s.instances| ==> MemBounded(s.instances[i].mem, key, lo, hi, limit)
    ensures |LocalUpTo(s, key, lo, hi, n)| <= n * limit + Detached(s, key, lo, hi, n)
  {
    if n > 0 {
      LocalSize(s, key, lo, hi, n - 1, limit);
      LocalStep(s, key, lo, hi, n, limit, (n - 1) * limit);
      OneMore(n - 1, limit);
    }
  }

  lemma OneMore(n: int, limit: int)
    ensures n * limit + limit == (n + 1) * limit
  {
  }

  lemma UnionSize<T>(x: set<T>, y: set<T>)
    ensures |x + y| <= |x| + |y|
  {
  }

  lemma {:induction false} InLocal(s: State, key: string, lo: int, hi: int, n: nat, c: Q.Caller)
    requires c.inst < n <= |s.instances| && c.call in E.Answers(s.instances[c.inst].mem, key, lo, hi)
    ensures c in LocalUpTo(s, key, lo, hi, n)
  {
    if c.inst < n - 1 { InLocal(s, key, lo, hi, n - 1, c); }
  }

  /** Every allowed call was admitted by Redis or by its own instance's limiter. */
  lemma WhoAdmitted(s: State, w: World, key: string, a: int, b: int, c: Q.Caller)
    requires BooksOk(s, w) && c in Admitted(s, key, a * MILLISECOND, b * MILLISECOND)
    ensures c in Q.Answers(s.redis, key, a, b)
            || c.call in E.Answers(s.instances[c.inst].mem, key, a * MILLISECOND, b * MILLISECOND)
  {
    var inst := s.instances[c.inst];
    assert CallsOk(s.redis.messages, inst, c.inst);
    assert CallOk(s.redis.messages, inst.mem.threads, c, inst.calls[c.call]);
  }

  lemma AdmittedCovered(s: State, w: World, key: string, a: int, b: int, lo: int, hi: int)
    requires BooksOk(s, w) && lo == a * MILLISECOND && hi == b * MILLISECOND
    ensures Admitted(s, key, lo, hi) <= Q.Answers(s.redis, key, a, b) + LocalUpTo(s, key, lo, hi, |s.instances|)
  {
    forall c | c in Admitted(s, key, lo, hi)
      ensures c in Q.Answers(s.redis, key, a, b) + LocalUpTo(s, key, lo, hi, |s.instances|)
    {
      WhoAdmitted(s, w, key, a, b, c);
      if c !in Q.Answers(s.redis, key, a, b) { InLocal(s, key, lo, hi, |s.instances|, c); }
    }
  }

  lemma AdmittedSize(s: State, w: World, key: string, a: int, b: int, lo: int, hi: int)
    requires BooksOk(s, w) && lo == a * MILLISECOND && hi == b * MILLISECOND
    ensures |Admitted(s, key, lo, hi)| <= |Q.Answers(s.redis, key, a, b)| + |LocalUpTo(s, key, lo, hi, |s.instances|)|
  {
    var viaRedis, local := Q.Answers(s.redis, key, a, b), LocalUpTo(s, key, lo, hi, |s.instances|);
    AdmittedCovered(s, w, key, a, b, lo, hi);
    SubsetSize(Admitted(s, key, lo, hi), viaRedis + local);
    UnionSize(viaRedis, local);
  }

  lemma LocalShare(s: State, now: nat, w: World, key: string, lo: int, hi: int, n: nat)
    requires MemsOk(s, now, w) && hi == lo + w.p.window - w.rules.lag * MILLISECOND && n == |s.instances|
    ensures |LocalUpTo(s, key, lo, hi, n)| <= n * w.p.limit + Detached(s, key, lo, hi, n)
  {
    MemsBounded(s, now, w, key, lo, hi);
    LocalSize(s, key, lo, hi, n, w.p.limit);
  }

  lemma Shares(s: State, now: nat, w: World, key: string, a: int, b: int, lo: int, hi: int, n: nat)
    requires Q.Ok(s.redis, now, w.rules) && MemsOk(s, now, w) && n == |s.instances|
    requires b == a + w.rules.window - w.rules.lag && hi == lo + w.p.window - w.rules.lag * MILLISECOND
    ensures |Q.Answers(s.redis, key, a, b)| <= w.rules.limit
    ensures |LocalUpTo(s, key, lo, hi, n)| <= n * w.p.limit + Detached(s, key, lo, hi, n)
  {
    Q.ServerWindow(s.redis, now, w.rules, key, a);
    LocalShare(s, now, w, key, lo, hi, n);
  }

  lemma FleetWindow(s: State, now: nat, w: World, key: string, a: int, b: int, lo: int, hi: int, n: nat)
    requires Ok(s, now, w) && b == a + w.rules.window - w.rules.lag && n == |s.instances| == |w.names|
    requires lo == a * MILLISECOND && hi == b * MILLISECOND
    ensures |Admitted(s, key, lo, hi)| <= (n + 1) * w.p.limit + Detached(s, key, lo, hi, n)
  {
    AdmittedSize(s, w, key, a, b, lo, hi);
    Shares(s, now, w, key, a, b, lo, hi, n);
    OneMore(n, w.p.limit);
  }

  // ---------------------------------------------------------------- runs

  datatype Event = Event(at: nat, step: Step)

  function Start(w: World): State {
    State(Q.INITIAL, seq(|w.names|, i => Instance(B.WORKING, E.INITIAL, map[], 0, 0, 0)))
  }

  /** Steps that can be taken one after the other, at instants that never go back. */
  ghost predicate Run(run: seq<Event>, w: World)
    decreases |run|, 0
  {
    run == [] ||
    var n := |run| - 1;
    && Run(run[..n], w)
    && Enabled(After(run[..n], w), run[n].step)
    && (n > 0 ==> run[n - 1].at <= run[n].at)
  }

  ghost function After(run: seq<Event>, w: World): (s: State)
    requires Run(run, w)
    ensures |s.instances| == |w.names|
    decreases |run|, 1
  {
    if run == [] then Start(w)
    else Next(After(run[..|run| - 1], w), run[|run| - 1].step, run[|run| - 1].at, w)
  }

  ghost predicate TimelyRun(run: seq<Event>, w: World)
    requires Run(run, w)
  {
    run != [] ==>
      var n := |run| - 1;
      && TimelyRun(run[..n], w)
      && Timely(After(run[..n], w), run[n].step, run[n].at, w)
  }

  lemma StartOk(now: nat, w: World)
    requires w.Usable()
    ensures Ok(Start(w), now, w)
  {
    Q.InitiallyOk(now, w.rules);
  }

  lemma {:induction false} OkInEveryRun(run: seq<Event>, w: World, now: nat)
    requires w.Usable() && Run(run, w) && TimelyRun(run, w)
    requires run != [] ==> run[|run| - 1].at <= now
    ensures Ok(After(run, w), now, w)
  {
    if run == [] {
      StartOk(now, w);
    } else {
      var n := |run| - 1;
      OkInEveryRun(run[..n], w, run[n].at);
      StepKeeps(After(run[..n], w), run[n].step, run[n].at, w);
      TimePasses(After(run, w), run[n].at, now, w);
    }
  }

  /** The fleet's bound. With n instances sharing one Redis and one policy of `limit` requests per
      window, any window shorter by the lag holds at most (n + 1) * limit allowed calls of a key,
      beyond those on detached entries, however breakers flap, replies are lost or resent, and
      callers give up, and however late Redis runs what nobody waits for any more. With no lag that
      is the full window. */
  lemma FleetBound(run: seq<Event>, w: World, key: string, a: int)
    requires w.Usable() && Run(run, w) && TimelyRun(run, w)
    ensures var s, n := After(run, w), |w.names|;
            var lo, hi := a * MILLISECOND, (a + w.rules.window - w.rules.lag) * MILLISECOND;
            |Admitted(s, key, lo, hi)| <= (n + 1) * w.p.limit + Detached(s, key, lo, hi, n)
  {
    var now := if run == [] then 0 else run[|run| - 1].at;
    var b := a + w.rules.window - w.rules.lag;
    OkInEveryRun(run, w, now);
    FleetWindow(After(run, w), now, w, key, a, b, a * MILLISECOND, b * MILLISECOND, |w.names|);
  }

  /** In every run a finished call has the answer that Redis gave, in time, to the message sent for it, or
      the answer of its own instance's limiter. */
  lemma AnswersInEveryRun(run: seq<Event>, w: World, i: nat, t: nat)
    requires w.Usable() && Run(run, w) && TimelyRun(run, w) && i < |w.names|
    requires t in After(run, w).instances[i].calls && After(run, w).instances[i].calls[t].Done?
    ensures var s, call := After(run, w), After(run, w).instances[i].calls[t];
            if call.viaRedis then
              && Q.Caller(i, t) in s.redis.messages
              && var m := s.redis.messages[Q.Caller(i, t)];
                 m.key == call.key && m.stamp * MILLISECOND == call.stamp && call.allowed in m.replies
            else
              && t in s.instances[i].mem.threads
              && var th := s.instances[i].mem.threads[t];
                 th.Returned? && th.key == call.key && th.stamp == call.stamp && th.allowed == call.allowed
  {
    OkInEveryRun(run, w, if run == [] then 0 else run[|run| - 1].at);
    var s := After(run, w);
    assert CallsOk(s.redis.messages, s.instances[i], i);
    assert CallOk(s.redis.messages, s.instances[i].mem.threads, Q.Caller(i, t), s.instances[i].calls[t]);
  }

  lemma ServedParts(calls: map<nat, Phase>)
    ensures |Finished(calls)| == |Served(calls, true)| + |Served(calls, false)|
  {
    assert Finished(calls) == Served(calls, true) + Served(calls, false);
    assert Served(calls, true) !! Served(calls, false);
  }

  lemma {:induction false} CountsInEveryRun(run: seq<Event>, w: World, s: State)
    requires Run(run, w) && s == After(run, w)
    ensures forall i :: 0 <= i < |s.instances| ==> CountsOk(s.instances[i])
  {
    if run != [] {
      var n := |run| - 1;
      CountsInEveryRun(run[..n], w, After(run[..n], w));
      CountsKept(After(run[..n], w), run[n].step, run[n].at, w, s);
    }
  }

  /** Every finished call was served once: by Redis, or by the fallback. */
  lemma ServedAddsUp(run: seq<Event>, w: World, i: nat)
    requires Run(run, w) && i < |w.names|
    ensures var inst := After(run, w).instances[i];
            && inst.redisServed == |Served(inst.calls, true)|
            && inst.fallbackServed == |Served(inst.calls, false)|
            && inst.redisServed + inst.fallbackServed == |Finished(inst.calls)|
  {
    CountsInEveryRun(run, w, After(run, w));
    assert CountsOk(After(run, w).instances[i]);
    ServedParts(After(run, w).instances[i].calls);
  }
}
