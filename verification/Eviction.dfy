/** The in-memory limiter under concurrency: any number of callers of Allow and Peek, janitor passes
    and Resets, interleaved at every point where the program releases a lock or touches the shared
    map (internal/limiter/memory.go).

    Every step happens at some instant of one global clock. A caller reads that clock once, before
    it looks its entry up, and may be overtaken arbitrarily before its next step. */
module Eviction {
  import opened Policies
  import opened SlidingWindow
  import M = MemoryModel
  import F = FullHistory

  type Key = string
  type ThreadId = nat

  /** An allocated entry and the key it was stored under. */
  datatype Cell = Cell(key: Key, entry: M.Entry)

  /** What the counted admissions of one key were: the caller's stamp, the instant, the caller. */
  datatype Log = Log(stamps: seq<int>, ats: seq<int>, ids: seq<ThreadId>)

  /** Where a goroutine stands. `e` indexes the heap. */
  datatype Thread =
    // Allow
    | Lookup(key: Key, stamp: int, policy: Policy, attempt: nat)
    | Store(key: Key, stamp: int, policy: Policy, attempt: nat, e: nat)
    | Lock(key: Key, stamp: int, policy: Policy, attempt: nat, e: nat)
    | Discard(key: Key, stamp: int, policy: Policy, attempt: nat, e: nat)
    | Detach(key: Key, stamp: int, policy: Policy)
    | Returned(key: Key, stamp: int, allowed: bool, detached: bool)
    // Peek
    | PeekClock(key: Key, policy: Policy, e: nat)
    | PeekLock(key: Key, stamp: int, policy: Policy, e: nat)
    // cleanup
    | Sweep(stamp: int)
    | SweepLock(key: Key, stamp: int, e: nat)
    | SweepDelete(key: Key, stamp: int, e: nat)
    // Reset
    | Clear
    | ClearLock(key: Key, e: nat)
    | ClearDelete(key: Key, e: nat)
    | Idle

  datatype State = State(
    heap: seq<Cell>,
    table: map<Key, nat>,
    threads: map<ThreadId, Thread>,
    logs: map<Key, Log>,
    evictions: nat)

  const INITIAL := State([], map[], map[], map[], 0)
  const MAX_RETRIES := 8

  datatype Step =
    | CallAllow(t: ThreadId, key: Key, policy: Policy)
    | CallPeek(t: ThreadId, key: Key, policy: Policy)
    | CallCleanup(t: ThreadId)
    | CallReset(t: ThreadId)
    | Visit(t: ThreadId, key: Key) // a Range hands the entry of `key` to its callback
    | Advance(t: ThreadId)

  predicate InTable(s: State, key: Key, e: nat) {
    key in s.table && s.table[key] == e
  }

  predicate HasEntry(th: Thread) {
    th.Store? || th.Lock? || th.Discard? || th.PeekClock? || th.PeekLock?
    || th.SweepLock? || th.SweepDelete? || th.ClearLock? || th.ClearDelete?
  }

  predicate Enabled(s: State, step: Step) {
    match step
    case CallAllow(t, _, _) => t !in s.threads
    case CallPeek(t, key, _) => t !in s.threads && key in s.table
    case CallCleanup(t) => t !in s.threads
    case CallReset(t) => t !in s.threads
    case Visit(t, key) => t in s.threads && (s.threads[t].Sweep? || s.threads[t].Clear?) && key in s.table
    case Advance(t) =>
      && t in s.threads
      && var th := s.threads[t];
         th.Lookup? || th.Detach? || (HasEntry(th) && th.e < |s.heap|)
  }

  function LogOf(s: State, key: Key): Log {
    if key in s.logs then s.logs[key] else Log([], [], [])
  }

  function WithEntry(s: State, e: nat, v: M.Entry): State
    requires e < |s.heap|
  {
    s.(heap := s.heap[e := s.heap[e].(entry := v)])
  }

  function Goto(s: State, t: ThreadId, th: Thread): State {
    s.(threads := s.threads[t := th])
  }

  function Allocate(s: State, key: Key): State {
    s.(heap := s.heap + [Cell(key, M.FRESH)], table := s.table[key := |s.heap|])
  }

  function CompareAndDelete(s: State, key: Key, e: nat): State {
    if InTable(s, key, e) then s.(table := s.table - {key}) else s
  }

  function Record(s: State, key: Key, stamp: int, now: int, t: ThreadId): State {
    var log := LogOf(s, key);
    s.(logs := s.logs[key := Log(log.stamps + [stamp], log.ats + [now], log.ids + [t])])
  }

  /** Allow's critical section on a live entry. */
  function DecideLocked(s: State, t: ThreadId, now: int): State
    requires t in s.threads && s.threads[t].Lock? && s.threads[t].e < |s.heap|
  {
    var th := s.threads[t];
    var r := M.Decide(s.heap[th.e].entry, th.stamp, th.policy.Normalize());
    var s1 := Goto(WithEntry(s, th.e, r.0), t, Returned(th.key, th.stamp, r.1.allowed, false));
    if r.1.allowed then Record(s1, th.key, th.stamp, now, t) else s1
  }

  /** The next atomic action of a caller of Allow. */
  function AllowStep(s: State, t: ThreadId, now: int): State
    requires Enabled(s, Advance(t))
  {
    var th := s.threads[t];
    match th
    case Lookup(key, stamp, policy, attempt) =>
      if key in s.table then Goto(s, t, Store(key, stamp, policy, attempt, s.table[key]))
      else Goto(Allocate(s, key), t, Store(key, stamp, policy, attempt, |s.heap|))
    case Store(key, stamp, policy, attempt, e) =>
      Goto(WithEntry(s, e, s.heap[e].entry.(lastSeen := stamp)), t, Lock(key, stamp, policy, attempt, e))
    case Lock(key, stamp, policy, attempt, e) =>
      if s.heap[e].entry.dead then Goto(s, t, Discard(key, stamp, policy, attempt, e))
      else DecideLocked(s, t, now)
    case Discard(key, stamp, policy, attempt, e) =>
      Goto(CompareAndDelete(s, key, e), t,
           if attempt < MAX_RETRIES then Lookup(key, stamp, policy, attempt + 1) else Detach(key, stamp, policy))
    case Detach(key, stamp, policy) =>
      Goto(s, t, Returned(key, stamp, M.Decide(M.FRESH, stamp, policy.Normalize()).1.allowed, true))
    case _ => s
  }

  /** The next atomic action of a caller of Peek. */
  function PeekStep(s: State, t: ThreadId, now: int): State
    requires Enabled(s, Advance(t))
  {
    match s.threads[t]
    case PeekClock(key, policy, e) => Goto(s, t, PeekLock(key, now, policy, e))
    case PeekLock(_, stamp, policy, e) =>
      var v := s.heap[e].entry;
      Goto(WithEntry(s, e, v.(hits := Prune(v.hits, stamp - policy.Normalize().window))), t, Idle)
    case _ => s
  }

  /** The next atomic action of a janitor pass or a Reset. */
  function SweepStep(s: State, t: ThreadId, minTTL: int): State
    requires Enabled(s, Advance(t))
  {
    match s.threads[t]
    case SweepLock(key, stamp, e) =>
      var v := s.heap[e].entry;
      Goto(WithEntry(s, e, M.Visit(v, stamp, minTTL)), t,
           if M.Idle(v, stamp, minTTL) then SweepDelete(key, stamp, e) else Sweep(stamp))
    case SweepDelete(key, stamp, e) =>
      Goto(CompareAndDelete(s, key, e).(evictions := s.evictions + if InTable(s, key, e) then 1 else 0),
           t, Sweep(stamp))
    case ClearLock(key, e) =>
      Goto(WithEntry(s, e, s.heap[e].entry.(dead := true)), t, ClearDelete(key, e))
    case ClearDelete(key, e) =>
      Goto(CompareAndDelete(s, key, e), t, Clear)
    case _ => s
  }

  predicate InAllow(th: Thread) {
    th.Lookup? || th.Store? || th.Lock? || th.Discard? || th.Detach?
  }

  function AdvanceThread(s: State, t: ThreadId, now: int, minTTL: int): State
    requires Enabled(s, Advance(t))
  {
    if InAllow(s.threads[t]) then AllowStep(s, t, now)
    else if s.threads[t].PeekClock? || s.threads[t].PeekLock? then PeekStep(s, t, now)
    else SweepStep(s, t, minTTL)
  }

  function Next(s: State, step: Step, now: int, minTTL: int): State
    requires Enabled(s, step)
  {
    match step
    case CallAllow(t, key, policy) => Goto(s, t, Lookup(key, now, policy, 0))
    case CallPeek(t, key, policy) => Goto(s, t, PeekClock(key, policy, s.table[key]))
    case CallCleanup(t) => Goto(s, t, Sweep(now))
    case CallReset(t) => Goto(s, t, Clear)
    case Visit(t, key) =>
      Goto(s, t, if s.threads[t].Sweep? then SweepLock(key, s.threads[t].stamp, s.table[key])
                 else ClearLock(key, s.table[key]))
    case Advance(t) => AdvanceThread(s, t, now, minTTL)
  }

  // ---------------------------------------------------------------- the protocol invariant

  ghost predicate ThreadFits(heap: seq<Cell>, th: Thread) {
    HasEntry(th) ==>
      && th.e < |heap| && heap[th.e].key == th.key
      && (th.Discard? || th.SweepDelete? || th.ClearDelete? ==> heap[th.e].entry.dead)
  }

  /** A stored entry that is not dead is the one the table holds for its key. */
  ghost predicate Protocol(s: State) {
    && (forall k :: k in s.table ==> s.table[k] < |s.heap| && s.heap[s.table[k]].key == k)
    && (forall e :: 0 <= e < |s.heap| && !s.heap[e].entry.dead ==> InTable(s, s.heap[e].key, e))
    && (forall t :: t in s.threads ==> ThreadFits(s.heap, s.threads[t]))
  }

  /** Entries only ever age: keys are fixed and the dead stay dead. */
  ghost predicate Ages(h: seq<Cell>, h': seq<Cell>) {
    && |h| <= |h'|
    && forall e :: 0 <= e < |h| ==> h'[e].key == h[e].key && (h[e].entry.dead ==> h'[e].entry.dead)
  }

  lemma GotoKeeps(s: State, t: ThreadId, th: Thread)
    requires Protocol(s) && ThreadFits(s.heap, th)
    ensures Protocol(Goto(s, t, th))
  {
  }

  lemma WithEntryKeeps(s: State, e: nat, v: M.Entry)
    requires Protocol(s) && e < |s.heap| && (s.heap[e].entry.dead ==> v.dead)
    ensures Protocol(WithEntry(s, e, v)) && Ages(s.heap, WithEntry(s, e, v).heap)
  {
    var s' := WithEntry(s, e, v);
    forall t | t in s'.threads ensures ThreadFits(s'.heap, s'.threads[t]) {
      assert ThreadFits(s.heap, s.threads[t]);
    }
  }

  lemma AllocateKeeps(s: State, key: Key)
    requires Protocol(s) && key !in s.table
    ensures Protocol(Allocate(s, key)) && Ages(s.heap, Allocate(s, key).heap)
  {
    var s' := Allocate(s, key);
    forall t | t in s'.threads ensures ThreadFits(s'.heap, s'.threads[t]) {
      assert ThreadFits(s.heap, s.threads[t]);
    }
  }

  lemma DeleteKeeps(s: State, key: Key, e: nat)
    requires Protocol(s) && e < |s.heap| && s.heap[e].entry.dead
    ensures Protocol(CompareAndDelete(s, key, e))
  {
  }

  /** A step from s may lead to s'. */
  ghost predicate Follows(s: State, s': State) {
    Protocol(s') && Ages(s.heap, s'.heap)
  }

  lemma LookupKeeps(s: State, t: ThreadId, now: int, s': State)
    requires Protocol(s) && t in s.threads && s.threads[t].Lookup? && s' == AllowStep(s, t, now)
    ensures Follows(s, s')
  {
    var th := s.threads[t];
    if th.key !in s.table { AllocateKeeps(s, th.key); }
    var s1 := if th.key in s.table then s else Allocate(s, th.key);
    GotoKeeps(s1, t, Store(th.key, th.stamp, th.policy, th.attempt, s1.table[th.key]));
  }

  /** Marking an entry, or trimming it, and moving on. */
  lemma MarkKeeps(s: State, t: ThreadId, e: nat, v: M.Entry, th: Thread, s': State)
    requires Protocol(s) && e < |s.heap| && (s.heap[e].entry.dead ==> v.dead)
    requires ThreadFits(WithEntry(s, e, v).heap, th) && s' == Goto(WithEntry(s, e, v), t, th)
    ensures Follows(s, s')
  {
    WithEntryKeeps(s, e, v);
    GotoKeeps(WithEntry(s, e, v), t, th);
  }

  lemma StoreKeeps(s: State, t: ThreadId, now: int, s': State)
    requires Protocol(s) && Enabled(s, Advance(t)) && s.threads[t].Store? && s' == AllowStep(s, t, now)
    ensures Follows(s, s')
  {
    var th := s.threads[t];
    assert ThreadFits(s.heap, th);
    MarkKeeps(s, t, th.e, s.heap[th.e].entry.(lastSeen := th.stamp),
              Lock(th.key, th.stamp, th.policy, th.attempt, th.e), s');
  }

  lemma LockKeeps(s: State, t: ThreadId, now: int, s': State)
    requires Protocol(s) && Enabled(s, Advance(t)) && s.threads[t].Lock? && s' == AllowStep(s, t, now)
    ensures Follows(s, s')
  {
    var th := s.threads[t];
    assert ThreadFits(s.heap, th);
    if s.heap[th.e].entry.dead {
      GotoKeeps(s, t, Discard(th.key, th.stamp, th.policy, th.attempt, th.e));
    } else {
      var r := M.Decide(s.heap[th.e].entry, th.stamp, th.policy.Normalize());
      var returned := Returned(th.key, th.stamp, r.1.allowed, false);
      var s1 := Goto(WithEntry(s, th.e, r.0), t, returned);
      MarkKeeps(s, t, th.e, r.0, returned, s1);
      RecordKeeps(s, s1, s');
    }
  }

  lemma RecordKeeps(s: State, s1: State, s': State)
    requires Follows(s, s1) && s'.heap == s1.heap && s'.table == s1.table && s'.threads == s1.threads
    ensures Follows(s, s')
  {
  }

  lemma DiscardKeeps(s: State, t: ThreadId, now: int, s': State)
    requires Protocol(s) && Enabled(s, Advance(t)) && (s.threads[t].Discard? || s.threads[t].Detach?)
    requires s' == AllowStep(s, t, now)
    ensures Follows(s, s')
  {
    var th := s.threads[t];
    assert ThreadFits(s.heap, th);
    if th.Discard? {
      DeleteKeeps(s, th.key, th.e);
      GotoKeeps(CompareAndDelete(s, th.key, th.e), t, s'.threads[t]);
    } else {
      GotoKeeps(s, t, s'.threads[t]);
    }
  }

  lemma AllowKeepsProtocol(s: State, t: ThreadId, now: int, s': State)
    requires Protocol(s) && Enabled(s, Advance(t)) && InAllow(s.threads[t]) && s' == AllowStep(s, t, now)
    ensures Follows(s, s')
  {
    if s.threads[t].Lookup? { LookupKeeps(s, t, now, s'); }
    else if s.threads[t].Store? { StoreKeeps(s, t, now, s'); }
    else if s.threads[t].Lock? { LockKeeps(s, t, now, s'); }
    else { DiscardKeeps(s, t, now, s'); }
  }

  lemma PeekKeepsProtocol(s: State, t: ThreadId, now: int, s': State)
    requires Protocol(s) && Enabled(s, Advance(t)) && (s.threads[t].PeekClock? || s.threads[t].PeekLock?)
    requires s' == PeekStep(s, t, now)
    ensures Follows(s, s')
  {
    var th := s.threads[t];
    assert ThreadFits(s.heap, th);
    if th.PeekClock? {
      GotoKeeps(s, t, PeekLock(th.key, now, th.policy, th.e));
    } else {
      var v := s.heap[th.e].entry;
      MarkKeeps(s, t, th.e, v.(hits := Prune(v.hits, th.stamp - th.policy.Normalize().window)), Idle, s');
    }
  }

  lemma MarkingKeeps(s: State, t: ThreadId, minTTL: int, s': State)
    requires Protocol(s) && Enabled(s, Advance(t)) && (s.threads[t].SweepLock? || s.threads[t].ClearLock?)
    requires s' == SweepStep(s, t, minTTL)
    ensures Follows(s, s')
  {
    var th := s.threads[t];
    assert ThreadFits(s.heap, th);
    var v := s.heap[th.e].entry;
    MarkKeeps(s, t, th.e, if th.SweepLock? then M.Visit(v, th.stamp, minTTL) else v.(dead := true), s'.threads[t], s');
  }

  lemma DeletingKeeps(s: State, t: ThreadId, minTTL: int, s': State)
    requires Protocol(s) && Enabled(s, Advance(t)) && (s.threads[t].SweepDelete? || s.threads[t].ClearDelete?)
    requires s' == SweepStep(s, t, minTTL)
    ensures Follows(s, s')
  {
    var th := s.threads[t];
    assert ThreadFits(s.heap, th);
    var s1 := CompareAndDelete(s, th.key, th.e);
    DeleteKeeps(s, th.key, th.e);
    GotoKeeps(s1, t, s'.threads[t]);
    RecordKeeps(s, Goto(s1, t, s'.threads[t]), s');
  }

  lemma SweepKeepsProtocol(s: State, t: ThreadId, minTTL: int, s': State)
    requires Protocol(s) && Enabled(s, Advance(t)) && s' == SweepStep(s, t, minTTL)
    ensures Follows(s, s')
  {
    if s.threads[t].SweepLock? || s.threads[t].ClearLock? { MarkingKeeps(s, t, minTTL, s'); }
    else if s.threads[t].SweepDelete? || s.threads[t].ClearDelete? { DeletingKeeps(s, t, minTTL, s'); }
  }

  /** Every step of every thread keeps the protocol, and no dead entry ever revives. */
  lemma ProtocolKept(s: State, step: Step, now: int, minTTL: int)
    requires Protocol(s) && Enabled(s, step)
    ensures Protocol(Next(s, step, now, minTTL)) && Ages(s.heap, Next(s, step, now, minTTL).heap)
  {
    var s', t := Next(s, step, now, minTTL), step.t;
    if !step.Advance? {
      GotoKeeps(s, t, s'.threads[t]);
    } else if InAllow(s.threads[t]) {
      AllowKeepsProtocol(s, t, now, s');
    } else if s.threads[t].PeekClock? || s.threads[t].PeekLock? {
      PeekKeepsProtocol(s, t, now, s');
    } else {
      SweepKeepsProtocol(s, t, minTTL, s');
    }
  }

  /** Each key has at most one live entry. */
  lemma OneLiveEntry(s: State, e: nat, e': nat)
    requires Protocol(s) && e < |s.heap| && e' < |s.heap| && s.heap[e].key == s.heap[e'].key
    requires !s.heap[e].entry.dead && !s.heap[e'].entry.dead
    ensures e == e'
  {
    assert InTable(s, s.heap[e].key, e) && InTable(s, s.heap[e'].key, e');
  }

  /** Every counted admission goes into the live entry the table holds for its key. */
  lemma CountedIntoLiveEntry(s: State, step: Step, now: int, minTTL: int, key: Key)
    requires Protocol(s) && Enabled(s, step)
    requires |LogOf(Next(s, step, now, minTTL), key).stamps| > |LogOf(s, key).stamps|
    ensures var s' := Next(s, step, now, minTTL);
            && key in s.table && InTable(s', key, s.table[key])
            && var e := s.table[key];
               && e < |s.heap| == |s'.heap| && !s.heap[e].entry.dead && !s'.heap[e].entry.dead
               && var stamps, hits := LogOf(s', key).stamps, s'.heap[e].entry.hits;
                  hits != [] && hits[|hits| - 1] == stamps[|stamps| - 1]
  {
    if !(step.Advance? && s.threads[step.t].Lock? && !s.heap[s.threads[step.t].e].entry.dead) {
      QuietStep(s, step, now, minTTL);
    } else {
      assert ThreadFits(s.heap, s.threads[step.t]);
      assert InTable(s, s.threads[step.t].key, s.threads[step.t].e);
    }
  }

  // ---------------------------------------------------------------- windows under lag

  /** One policy for everyone, no Reset, and every step of a call of Allow within `lag` of the
      moment it read the clock. */
  predicate Timely(s: State, step: Step, now: int, p: Policy, lag: int)
    requires Enabled(s, step)
  {
    match step
    case CallAllow(_, _, policy) => policy.Normalize() == p
    case CallPeek(_, _, policy) => policy.Normalize() == p
    case CallCleanup(_) => true
    case CallReset(_) => false
    case Visit(_, _) => true
    case Advance(t) => InAllow(s.threads[t]) ==> now <= s.threads[t].stamp + lag
  }

  ghost predicate LogOk(log: Log, now: int, p: Policy, lag: int) {
    && Spaced(log.stamps, log.ats, p.limit, p.window, lag)
    && |log.ids| == |log.stamps|
    && AllAtMost(log.stamps, now)
    && Ascending(log.ats) && AllAtMost(log.ats, now)
  }

  /** A live entry still holds every admission that could matter, and was seen recently enough. */
  ghost predicate LiveOk(v: M.Entry, stamps: seq<int>, now: int, p: Policy, lag: int) {
    && F.Suffix(v.hits, stamps, now - p.window)
    && (v.hits != [] ==> v.window == p.window)
    && AllAtMost(v.hits, v.lastSeen + lag)
  }

  ghost predicate KeyOk(s: State, k: Key, now: int, p: Policy, lag: int) {
    && LogOk(LogOf(s, k), now, p, lag)
    && if k in s.table && s.table[k] < |s.heap| && !s.heap[s.table[k]].entry.dead
       then LiveOk(s.heap[s.table[k]].entry, LogOf(s, k).stamps, now, p, lag)
       else AllAtMost(LogOf(s, k).stamps, now - p.window)
  }

  ghost predicate KeysOk(s: State, now: int, p: Policy, lag: int) {
    forall k :: KeyOk(s, k, now, p, lag)
  }

  ghost predicate ThreadOk(heap: seq<Cell>, th: Thread, now: int, p: Policy, lag: int) {
    && (InAllow(th) ==> th.stamp <= now && th.policy.Normalize() == p)
    && (th.Lock? && th.e < |heap| ==> th.stamp <= heap[th.e].entry.lastSeen + lag)
    && (th.PeekClock? || th.PeekLock? ==> th.policy.Normalize() == p)
    && (th.PeekLock? || th.Sweep? || th.SweepLock? || th.SweepDelete? ==> th.stamp <= now)
    && !th.Clear? && !th.ClearLock? && !th.ClearDelete?
  }

  ghost predicate ThreadsOk(s: State, now: int, p: Policy, lag: int) {
    forall t :: t in s.threads ==> ThreadOk(s.heap, s.threads[t], now, p, lag)
  }

  ghost predicate Windows(s: State, now: int, p: Policy, lag: int) {
    && p.Enforceable() && 0 <= lag <= p.window
    && Protocol(s) && KeysOk(s, now, p, lag) && ThreadsOk(s, now, p, lag)
  }

  lemma TimePasses(s: State, now: int, now': int, p: Policy, lag: int)
    requires Windows(s, now, p, lag) && now <= now'
    ensures Windows(s, now', p, lag)
  {
    forall k ensures KeyOk(s, k, now', p, lag) {
      assert KeyOk(s, k, now, p, lag);
    }
  }

  /** Moving a thread on. */
  lemma GotoOk(s: State, t: ThreadId, th: Thread, now: int, p: Policy, lag: int)
    requires KeysOk(s, now, p, lag) && ThreadsOk(s, now, p, lag) && ThreadOk(s.heap, th, now, p, lag)
    ensures KeysOk(Goto(s, t, th), now, p, lag) && ThreadsOk(Goto(s, t, th), now, p, lag)
  {
    var s' := Goto(s, t, th);
    forall k ensures KeyOk(s', k, now, p, lag) {
      assert KeyOk(s, k, now, p, lag);
    }
  }

  /** What the new value of an entry has to satisfy. */
  ghost predicate EntryOk(s: State, e: nat, v: M.Entry, now: int, p: Policy, lag: int)
    requires e < |s.heap|
  {
    var before, stamps := s.heap[e].entry, LogOf(s, s.heap[e].key).stamps;
    && (v.lastSeen == before.lastSeen || v.lastSeen >= now - lag)
    && if before.dead then v.dead
       else if v.dead then AllAtMost(stamps, now - p.window)
       else LiveOk(v, stamps, now, p, lag)
  }

  lemma WithEntryOk(s: State, e: nat, v: M.Entry, now: int, p: Policy, lag: int)
    requires Windows(s, now, p, lag) && e < |s.heap| && EntryOk(s, e, v, now, p, lag)
    ensures KeysOk(WithEntry(s, e, v), now, p, lag) && ThreadsOk(WithEntry(s, e, v), now, p, lag)
  {
    var s' := WithEntry(s, e, v);
    forall k ensures KeyOk(s', k, now, p, lag) {
      assert KeyOk(s, k, now, p, lag);
      if k == s.heap[e].key && !s.heap[e].entry.dead {
        assert InTable(s, k, e);
      }
    }
    forall t | t in s'.threads ensures ThreadOk(s'.heap, s'.threads[t], now, p, lag) {
      assert ThreadOk(s.heap, s.threads[t], now, p, lag);
    }
  }

  lemma AllocateOk(s: State, key: Key, now: int, p: Policy, lag: int)
    requires Windows(s, now, p, lag) && key !in s.table
    ensures KeysOk(Allocate(s, key), now, p, lag) && ThreadsOk(Allocate(s, key), now, p, lag)
  {
    var s' := Allocate(s, key);
    forall k ensures KeyOk(s', k, now, p, lag) {
      assert KeyOk(s, k, now, p, lag);
    }
    forall t | t in s'.threads ensures ThreadOk(s'.heap, s'.threads[t], now, p, lag) {
      assert ThreadFits(s.heap, s.threads[t]);
      assert ThreadOk(s.heap, s.threads[t], now, p, lag);
    }
  }

  lemma DeleteOk(s: State, key: Key, e: nat, now: int, p: Policy, lag: int)
    requires Windows(s, now, p, lag) && e < |s.heap| && s.heap[e].entry.dead
    ensures KeysOk(CompareAndDelete(s, key, e), now, p, lag) && ThreadsOk(CompareAndDelete(s, key, e), now, p, lag)
  {
    var s' := CompareAndDelete(s, key, e);
    forall k ensures KeyOk(s', k, now, p, lag) {
      assert KeyOk(s, k, now, p, lag);
    }
  }

  /** A suffix with only expired stamps missing counts at least what is in the window. */
  lemma SuffixBounds(hits: seq<int>, stamps: seq<int>, bound: int)
    requires F.Suffix(hits, stamps, bound)
    ensures CountAfter(stamps, bound) <= |hits|
  {
    var n := |stamps| - |hits|;
    assert stamps == stamps[..n] + stamps[n..];
    CountAfterConcat(stamps[..n], stamps[n..], bound);
    CountAfterNone(stamps[..n], bound);
  }

  /** Pruning at a cutoff no later than the true one keeps a live entry in order. */
  lemma PruneOk(v: M.Entry, stamps: seq<int>, cutoff: int, now: int, p: Policy, lag: int)
    requires LiveOk(v, stamps, now, p, lag) && cutoff <= now - p.window
    ensures LiveOk(v.(hits := Prune(v.hits, cutoff)), stamps, now, p, lag)
  {
    PruneShape(v.hits, cutoff);
    F.PruneKeepsSuffix(v.hits, stamps, now - p.window, cutoff);
  }

  /** Room for one more in a live entry means room in the true window. */
  lemma DecideLogOk(hits: seq<int>, log: Log, stamp: int, now: int, t: ThreadId, p: Policy, lag: int)
    requires LogOk(log, now, p, lag) && F.Suffix(hits, log.stamps, now - p.window) && |hits| < p.limit
    requires stamp <= now <= stamp + lag
    ensures LogOk(Log(log.stamps + [stamp], log.ats + [now], log.ids + [t]), now, p, lag)
  {
    SuffixBounds(hits, log.stamps, now - p.window);
    SpacedAppend(log.stamps, log.ats, p.limit, p.window, lag, stamp, now);
  }

  /** A decision taken within the lag on a live entry leaves it in order. */
  lemma DecideOk(v: M.Entry, stamps: seq<int>, stamp: int, now: int, p: Policy, lag: int)
    requires p.Enforceable() && LiveOk(v, stamps, now, p, lag)
    requires stamp <= now <= stamp + lag && stamp <= v.lastSeen + lag
    ensures var r := M.Decide(v, stamp, p);
            LiveOk(r.0, if r.1.allowed then stamps + [stamp] else stamps, now, p, lag)
  {
    PruneOk(v, stamps, stamp - p.window, now, p, lag);
    var v1 := v.(hits := Prune(v.hits, stamp - p.window));
    if |v1.hits| < p.limit {
      AppendOk(v1, stamps, stamp, now, p, lag);
    }
  }

  lemma AppendOk(v: M.Entry, stamps: seq<int>, stamp: int, now: int, p: Policy, lag: int)
    requires LiveOk(v, stamps, now, p, lag) && stamp <= v.lastSeen + lag
    ensures LiveOk(v.(hits := v.hits + [stamp], window := p.window), stamps + [stamp], now, p, lag)
  {
    F.AppendSuffix(v.hits, stamps, now - p.window, stamp);
  }

  lemma DecideOnRecord(v: M.Entry, log: Log, stamp: int, now: int, t: ThreadId, p: Policy, lag: int)
    requires p.Enforceable() && LogOk(log, now, p, lag) && LiveOk(v, log.stamps, now, p, lag)
    requires stamp <= now <= stamp + lag && M.Decide(v, stamp, p).1.allowed
    ensures LogOk(Log(log.stamps + [stamp], log.ats + [now], log.ids + [t]), now, p, lag)
  {
    PruneOk(v, log.stamps, stamp - p.window, now, p, lag);
    DecideLogOk(Prune(v.hits, stamp - p.window), log, stamp, now, t, p, lag);
  }

  lemma DecideLockedOk(s: State, t: ThreadId, now: int, p: Policy, lag: int)
    requires Windows(s, now, p, lag) && t in s.threads && s.threads[t].Lock? && s.threads[t].e < |s.heap|
    requires !s.heap[s.threads[t].e].entry.dead && now <= s.threads[t].stamp + lag
    ensures KeysOk(DecideLocked(s, t, now), now, p, lag) && ThreadsOk(DecideLocked(s, t, now), now, p, lag)
  {
    var th, s' := s.threads[t], DecideLocked(s, t, now);
    var v, log := s.heap[th.e].entry, LogOf(s, th.key);
    assert ThreadFits(s.heap, th) && ThreadOk(s.heap, th, now, p, lag);
    assert InTable(s, th.key, th.e);
    assert KeyOk(s, th.key, now, p, lag);
    DecideOk(v, log.stamps, th.stamp, now, p, lag);
    if s'.threads[t].allowed { DecideOnRecord(v, log, th.stamp, now, t, p, lag); }
    DecidedShape(s, t, now);
    forall k ensures KeyOk(s', k, now, p, lag) {
      if k != th.key {
        assert KeyOk(s, k, now, p, lag);
        KeyFrame(s, s', k, now, p, lag);
      }
    }
    DecidedThreadsOk(s, t, now, p, lag);
  }

  /** The parts of the state a locked decision leaves alone. */
  lemma DecidedShape(s: State, t: ThreadId, now: int)
    requires Protocol(s) && t in s.threads && s.threads[t].Lock? && s.threads[t].e < |s.heap|
    ensures var th, s' := s.threads[t], DecideLocked(s, t, now);
            && s'.table == s.table && |s'.heap| == |s.heap|
            && (forall e :: 0 <= e < |s.heap| && e != th.e ==> s'.heap[e] == s.heap[e])
            && (forall k :: k != th.key ==> LogOf(s', k) == LogOf(s, k))
  {
  }

  lemma DecidedThreadsOk(s: State, t: ThreadId, now: int, p: Policy, lag: int)
    requires ThreadsOk(s, now, p, lag) && t in s.threads && s.threads[t].Lock? && s.threads[t].e < |s.heap|
    ensures ThreadsOk(DecideLocked(s, t, now), now, p, lag)
  {
    var s' := DecideLocked(s, t, now);
    forall u | u in s'.threads ensures ThreadOk(s'.heap, s'.threads[u], now, p, lag) {
      if u != t { assert ThreadOk(s.heap, s.threads[u], now, p, lag); }
    }
  }

  lemma KeyFrame(s: State, s': State, k: Key, now: int, p: Policy, lag: int)
    requires KeyOk(s, k, now, p, lag) && LogOf(s', k) == LogOf(s, k) && s'.table == s.table && |s'.heap| == |s.heap|
    requires k in s.table && s.table[k] < |s.heap| ==> s'.heap[s.table[k]] == s.heap[s.table[k]]
    ensures KeyOk(s', k, now, p, lag)
  {
  }

  /** Whatever the janitor finds idle has left every window: twice the window leaves room for a
      `lastSeen` that is behind by the lag. */
  lemma VisitOk(v: M.Entry, stamps: seq<int>, stamp: int, now: int, minTTL: int, p: Policy, lag: int)
    requires p.Enforceable() && lag <= p.window && stamp <= now
    requires LiveOk(v, stamps, now, p, lag)
    ensures if M.Idle(v, stamp, minTTL) then AllAtMost(stamps, now - p.window)
            else LiveOk(M.Visit(v, stamp, minTTL), stamps, now, p, lag)
  {
    if M.Idle(v, stamp, minTTL) {
      var n := |stamps| - |v.hits|;
      forall i | 0 <= i < |stamps| ensures stamps[i] <= now - p.window {
        if i >= n { assert v.hits[i - n] == stamps[i]; }
      }
    } else if v.hits != [] {
      PruneOk(v, stamps, stamp - v.window, now, p, lag);
    }
  }

  lemma AllowOk(s: State, t: ThreadId, now: int, p: Policy, lag: int)
    requires Windows(s, now, p, lag) && Enabled(s, Advance(t)) && InAllow(s.threads[t])
    requires Timely(s, Advance(t), now, p, lag)
    ensures KeysOk(AllowStep(s, t, now), now, p, lag) && ThreadsOk(AllowStep(s, t, now), now, p, lag)
  {
    var th := s.threads[t];
    assert ThreadFits(s.heap, th) && ThreadOk(s.heap, th, now, p, lag);
    match th
    case Lookup(key, stamp, policy, attempt) =>
      var s1 := if key in s.table then s else Allocate(s, key);
      if key !in s.table { AllocateOk(s, key, now, p, lag); }
      GotoOk(s1, t, Store(key, stamp, policy, attempt, s1.table[key]), now, p, lag);
    case Store(key, stamp, policy, attempt, e) =>
      StoreOk(s, t, now, p, lag);
    case Lock(key, stamp, policy, attempt, e) =>
      if s.heap[e].entry.dead {
        GotoOk(s, t, Discard(key, stamp, policy, attempt, e), now, p, lag);
      } else {
        DecideLockedOk(s, t, now, p, lag);
      }
    case Discard(key, stamp, policy, attempt, e) =>
      DeleteOk(s, key, e, now, p, lag);
      GotoOk(CompareAndDelete(s, key, e), t,
             if attempt < MAX_RETRIES then Lookup(key, stamp, policy, attempt + 1) else Detach(key, stamp, policy),
             now, p, lag);
    case Detach(key, stamp, policy) =>
      GotoOk(s, t, Returned(key, stamp, M.Decide(M.FRESH, stamp, policy.Normalize()).1.allowed, true), now, p, lag);
  }

  /** Storing lastSeen may set it back, but never by more than the lag. */
  lemma StoreOk(s: State, t: ThreadId, now: int, p: Policy, lag: int)
    requires Windows(s, now, p, lag) && t in s.threads && s.threads[t].Store? && s.threads[t].e < |s.heap|
    requires now <= s.threads[t].stamp + lag
    ensures Enabled(s, Advance(t))
    ensures KeysOk(AllowStep(s, t, now), now, p, lag) && ThreadsOk(AllowStep(s, t, now), now, p, lag)
  {
    var th := s.threads[t];
    var c := s.heap[th.e];
    var v := c.entry.(lastSeen := th.stamp);
    assert ThreadFits(s.heap, th) && ThreadOk(s.heap, th, now, p, lag);
    if !c.entry.dead {
      assert InTable(s, c.key, th.e);
      assert KeyOk(s, c.key, now, p, lag);
      var stamps := LogOf(s, c.key).stamps;
      forall i | 0 <= i < |v.hits| ensures v.hits[i] <= now {
        assert v.hits[i] == stamps[|stamps| - |v.hits| + i];
      }
    }
    WithEntryOk(s, th.e, v, now, p, lag);
    GotoOk(WithEntry(s, th.e, v), t, Lock(th.key, th.stamp, th.policy, th.attempt, th.e), now, p, lag);
  }

  lemma PeekStepOk(s: State, t: ThreadId, now: int, p: Policy, lag: int)
    requires Windows(s, now, p, lag) && Enabled(s, Advance(t))
    requires s.threads[t].PeekClock? || s.threads[t].PeekLock?
    ensures KeysOk(PeekStep(s, t, now), now, p, lag) && ThreadsOk(PeekStep(s, t, now), now, p, lag)
  {
    var th := s.threads[t];
    assert ThreadFits(s.heap, th) && ThreadOk(s.heap, th, now, p, lag);
    if th.PeekClock? {
      GotoOk(s, t, PeekLock(th.key, now, th.policy, th.e), now, p, lag);
    } else {
      var c := s.heap[th.e];
      var v := c.entry.(hits := Prune(c.entry.hits, th.stamp - th.policy.Normalize().window));
      if !c.entry.dead {
        assert InTable(s, c.key, th.e);
        assert KeyOk(s, c.key, now, p, lag);
        PruneOk(c.entry, LogOf(s, c.key).stamps, th.stamp - p.window, now, p, lag);
      }
      WithEntryOk(s, th.e, v, now, p, lag);
      GotoOk(WithEntry(s, th.e, v), t, Idle, now, p, lag);
    }
  }

  lemma SweepStepOk(s: State, t: ThreadId, minTTL: int, now: int, p: Policy, lag: int)
    requires Windows(s, now, p, lag) && Enabled(s, Advance(t))
    requires s.threads[t].SweepLock? || s.threads[t].SweepDelete?
    ensures KeysOk(SweepStep(s, t, minTTL), now, p, lag) && ThreadsOk(SweepStep(s, t, minTTL), now, p, lag)
  {
    var th := s.threads[t];
    assert ThreadFits(s.heap, th) && ThreadOk(s.heap, th, now, p, lag);
    if th.SweepLock? {
      var c := s.heap[th.e];
      var v := M.Visit(c.entry, th.stamp, minTTL);
      if !c.entry.dead {
        assert InTable(s, c.key, th.e);
        assert KeyOk(s, c.key, now, p, lag);
        VisitOk(c.entry, LogOf(s, c.key).stamps, th.stamp, now, minTTL, p, lag);
      }
      WithEntryOk(s, th.e, v, now, p, lag);
      GotoOk(WithEntry(s, th.e, v), t,
             if M.Idle(c.entry, th.stamp, minTTL) then SweepDelete(th.key, th.stamp, th.e) else Sweep(th.stamp),
             now, p, lag);
    } else {
      DeleteOk(s, th.key, th.e, now, p, lag);
      var s1 := CompareAndDelete(s, th.key, th.e);
      var s2 := s1.(evictions := s.evictions + if InTable(s, th.key, th.e) then 1 else 0);
      assert KeysOk(s2, now, p, lag) by {
        forall k ensures KeyOk(s2, k, now, p, lag) { assert KeyOk(s1, k, now, p, lag); }
      }
      GotoOk(s2, t, Sweep(th.stamp), now, p, lag);
    }
  }

  /** Every timely step keeps the windows safe. */
  lemma WindowsKept(s: State, step: Step, now: int, minTTL: int, p: Policy, lag: int)
    requires Windows(s, now, p, lag) && Enabled(s, step) && Timely(s, step, now, p, lag)
    ensures Windows(Next(s, step, now, minTTL), now, p, lag)
  {
    ProtocolKept(s, step, now, minTTL);
    match step
    case CallAllow(t, key, policy) => GotoOk(s, t, Lookup(key, now, policy, 0), now, p, lag);
    case CallPeek(t, key, policy) => GotoOk(s, t, PeekClock(key, policy, s.table[key]), now, p, lag);
    case CallCleanup(t) => GotoOk(s, t, Sweep(now), now, p, lag);
    case Visit(t, key) =>
      assert ThreadOk(s.heap, s.threads[t], now, p, lag);
      GotoOk(s, t, SweepLock(key, s.threads[t].stamp, s.table[key]), now, p, lag);
    case Advance(t) =>
      assert ThreadOk(s.heap, s.threads[t], now, p, lag);
      if InAllow(s.threads[t]) { AllowOk(s, t, now, p, lag); }
      else if s.threads[t].PeekClock? || s.threads[t].PeekLock? { PeekStepOk(s, t, now, p, lag); }
      else { SweepStepOk(s, t, minTTL, now, p, lag); }
  }

  // ---------------------------------------------------------------- answers and runs

  ghost predicate LoggedAt(log: Log, i: nat, t: ThreadId, stamp: int) {
    i < |log.stamps| == |log.ids| && log.ids[i] == t && log.stamps[i] == stamp
  }

  predicate Admitted(th: Thread) {
    th.Returned? && th.allowed
  }

  /** Every admission that was not made on a detached entry is on record. */
  ghost predicate Backed(s: State) {
    && (forall k :: |LogOf(s, k).ids| == |LogOf(s, k).stamps|)
    && forall t :: t in s.threads && Admitted(s.threads[t]) && !s.threads[t].detached ==>
         exists i :: LoggedAt(LogOf(s, s.threads[t].key), i, t, s.threads[t].stamp)
  }

  /** Logs only grow. */
  ghost predicate LogsGrow(s: State, s': State) {
    forall k :: LogOf(s, k).stamps <= LogOf(s', k).stamps && LogOf(s, k).ids <= LogOf(s', k).ids
  }

  lemma BackedGrows(s: State, s': State, t: ThreadId)
    requires Backed(s) && LogsGrow(s, s')
    requires forall k :: |LogOf(s', k).ids| == |LogOf(s', k).stamps|
    requires t in s'.threads && s'.threads == s.threads[t := s'.threads[t]]
    requires Admitted(s'.threads[t]) && !s'.threads[t].detached ==>
               exists i :: LoggedAt(LogOf(s', s'.threads[t].key), i, t, s'.threads[t].stamp)
    ensures Backed(s')
  {
    forall u | u in s'.threads && Admitted(s'.threads[u]) && !s'.threads[u].detached
      ensures exists i :: LoggedAt(LogOf(s', s'.threads[u].key), i, u, s'.threads[u].stamp)
    {
      if u != t {
        var i :| LoggedAt(LogOf(s, s.threads[u].key), i, u, s.threads[u].stamp);
        assert LoggedAt(LogOf(s', s.threads[u].key), i, u, s.threads[u].stamp);
      }
    }
  }

  lemma BackedKept(s: State, step: Step, now: int, minTTL: int)
    requires Backed(s) && Enabled(s, step)
    ensures Backed(Next(s, step, now, minTTL))
  {
    var s', t := Next(s, step, now, minTTL), step.t;
    if step.Advance? && s.threads[t].Lock? && !s.heap[s.threads[t].e].entry.dead {
      var th := s.threads[t];
      if s'.threads[t].allowed {
        assert LoggedAt(LogOf(s', th.key), |LogOf(s, th.key).ids|, t, th.stamp);
      }
    } else {
      QuietStep(s, step, now, minTTL);
    }
    BackedGrows(s, s', t);
  }

  /** Only a decision under the lock records anything. */
  lemma QuietStep(s: State, step: Step, now: int, minTTL: int)
    requires Enabled(s, step)
    requires step.Advance? && s.threads[step.t].Lock? ==> s.heap[s.threads[step.t].e].entry.dead
    ensures var s' := Next(s, step, now, minTTL);
            && s'.logs == s.logs && step.t in s'.threads
            && s'.threads == s.threads[step.t := s'.threads[step.t]]
            && !(Admitted(s'.threads[step.t]) && !s'.threads[step.t].detached)
  {
    if step.Advance? {
      if InAllow(s.threads[step.t]) { QuietAllow(s, step.t, now); }
    }
  }

  lemma QuietAllow(s: State, t: ThreadId, now: int)
    requires Enabled(s, Advance(t)) && InAllow(s.threads[t])
    requires s.threads[t].Lock? ==> s.heap[s.threads[t].e].entry.dead
    ensures var s' := AllowStep(s, t, now);
            && s'.logs == s.logs && t in s'.threads && s'.threads == s.threads[t := s'.threads[t]]
            && !(Admitted(s'.threads[t]) && !s'.threads[t].detached)
  {
  }

  /** The callers admitted for a key with a stamp in (lo, hi]. */
  function Answers(s: State, key: Key, lo: int, hi: int): set<ThreadId> {
    set t | t in s.threads && Admitted(s.threads[t]) && s.threads[t].key == key && lo < s.threads[t].stamp <= hi
  }

  function DetachedAnswers(s: State, key: Key, lo: int, hi: int): set<ThreadId> {
    set t | t in Answers(s, key, lo, hi) && s.threads[t].detached
  }

  lemma AnswersAreLogged(s: State, key: Key, lo: int, hi: int)
    requires Backed(s)
    ensures var log := LogOf(s, key);
            && Answers(s, key, lo, hi) <= Marked(log.stamps, log.ids, lo, hi) + DetachedAnswers(s, key, lo, hi)
            && |Answers(s, key, lo, hi)| <= CountIn(log.stamps, lo, hi) + |DetachedAnswers(s, key, lo, hi)|
  {
    var log, detached := LogOf(s, key), DetachedAnswers(s, key, lo, hi);
    var logged := Marked(log.stamps, log.ids, lo, hi);
    forall t | t in Answers(s, key, lo, hi) ensures t in logged + detached {
      if !s.threads[t].detached {
        var i :| LoggedAt(log, i, t, s.threads[t].stamp);
      }
    }
    SubsetSize(Answers(s, key, lo, hi), logged + detached);
  }

  /** The bound on admissions in any state the windows invariant describes. */
  lemma WindowNow(s: State, now: int, p: Policy, lag: int, key: Key, a: int)
    requires Windows(s, now, p, lag) && Backed(s)
    ensures var b := a + p.window - lag;
            |Answers(s, key, a, b)| <= p.limit + |DetachedAnswers(s, key, a, b)|
  {
    var log := LogOf(s, key);
    AnswersAreLogged(s, key, a, a + p.window - lag);
    assert KeyOk(s, key, now, p, lag);
    SpacedWindow(log.stamps, log.ats, p.limit, p.window, lag, a);
  }

  datatype Event = Event(at: int, step: Step)

  /** Steps that can be taken one after the other, at instants that never go back. */
  ghost predicate Run(run: seq<Event>, minTTL: int)
    decreases |run|, 0
  {
    run == [] ||
    var n := |run| - 1;
    && Run(run[..n], minTTL)
    && Enabled(After(run[..n], minTTL), run[n].step)
    && (n > 0 ==> run[n - 1].at <= run[n].at)
  }

  ghost function After(run: seq<Event>, minTTL: int): State
    requires Run(run, minTTL)
    decreases |run|, 1
  {
    if run == [] then INITIAL
    else Next(After(run[..|run| - 1], minTTL), run[|run| - 1].step, run[|run| - 1].at, minTTL)
  }

  ghost predicate TimelyRun(run: seq<Event>, minTTL: int, p: Policy, lag: int)
    requires Run(run, minTTL)
  {
    run != [] ==>
      var n := |run| - 1;
      && TimelyRun(run[..n], minTTL, p, lag)
      && Timely(After(run[..n], minTTL), run[n].step, run[n].at, p, lag)
  }

  /** In every run, whatever the policies, the Resets and the interleaving, a stored entry that is
      not dead is the one the table holds, and every admission is on record or was detached. */
  lemma {:induction false} ProtocolInEveryRun(run: seq<Event>, minTTL: int)
    requires Run(run, minTTL)
    ensures Protocol(After(run, minTTL)) && Backed(After(run, minTTL))
  {
    if run != [] {
      var n := |run| - 1;
      ProtocolInEveryRun(run[..n], minTTL);
      ProtocolKept(After(run[..n], minTTL), run[n].step, run[n].at, minTTL);
      BackedKept(After(run[..n], minTTL), run[n].step, run[n].at, minTTL);
    }
  }

  lemma {:induction false} WindowsInEveryRun(run: seq<Event>, minTTL: int, p: Policy, lag: int, now: int)
    requires Run(run, minTTL) && TimelyRun(run, minTTL, p, lag)
    requires p.Enforceable() && 0 <= lag <= p.window
    requires run != [] ==> run[|run| - 1].at <= now
    ensures Windows(After(run, minTTL), now, p, lag)
  {
    if run != [] {
      var n := |run| - 1;
      WindowsInEveryRun(run[..n], minTTL, p, lag, run[n].at);
      WindowsKept(After(run[..n], minTTL), run[n].step, run[n].at, minTTL, p, lag);
      TimePasses(After(run, minTTL), run[n].at, now, p, lag);
    }
  }

  /** Window safety under lag: if every call takes its steps within `lag` of reading the clock, any
      interval shorter than the window by that lag holds at most `limit` admissions of a key, plus
      those made on detached entries, whatever the callers and the janitor interleave. */
  lemma WindowUnderLag(run: seq<Event>, minTTL: int, p: Policy, lag: int, key: Key, a: int)
    requires Run(run, minTTL) && TimelyRun(run, minTTL, p, lag)
    requires p.Enforceable() && 0 <= lag <= p.window
    ensures var s, b := After(run, minTTL), a + p.window - lag;
            |Answers(s, key, a, b)| <= p.limit + |DetachedAnswers(s, key, a, b)|
  {
    var s, now := After(run, minTTL), if run == [] then 0 else run[|run| - 1].at;
    WindowsInEveryRun(run, minTTL, p, lag, now);
    ProtocolInEveryRun(run, minTTL);
    WindowNow(s, now, p, lag, key, a);
  }

  // ---------------------------------------------------------------- what is counted as an eviction

  /** A janitor pass takes a key out of the table; it may find that an Allow has done so already. */
  predicate TakesOut(s: State, s': State, step: Step) {
    step.Advance? && step.t in s.threads && s.threads[step.t].SweepDelete? && |s'.table| < |s.table|
  }

  lemma AllowEvictsNothing(s: State, t: ThreadId, now: int)
    requires Enabled(s, Advance(t))
    ensures AllowStep(s, t, now).evictions == PeekStep(s, t, now).evictions == s.evictions
  {
  }

  lemma SweepEvicts(s: State, t: ThreadId, minTTL: int)
    requires Enabled(s, Advance(t))
    ensures var s' := SweepStep(s, t, minTTL);
            s'.evictions == s.evictions + if s.threads[t].SweepDelete? && |s'.table| < |s.table| then 1 else 0
  {
    if s.threads[t].SweepDelete? {
      var th := s.threads[t];
      assert (s.table - {th.key}).Keys == s.table.Keys - {th.key};
    }
  }

  lemma EvictionStep(s: State, step: Step, now: int, minTTL: int, s': State)
    requires Enabled(s, step) && s' == Next(s, step, now, minTTL)
    ensures s'.evictions == s.evictions + if TakesOut(s, s', step) then 1 else 0
  {
    if step.Advance? {
      AllowEvictsNothing(s, step.t, now);
      SweepEvicts(s, step.t, minTTL);
    }
  }

  ghost function TakenOut(run: seq<Event>, minTTL: int): nat
    requires Run(run, minTTL)
  {
    if run == [] then 0
    else
      var n := |run| - 1;
      TakenOut(run[..n], minTTL)
      + if TakesOut(After(run[..n], minTTL), After(run, minTTL), run[n].step) then 1 else 0
  }

  /** In every run `evictions` is the number of times a janitor pass took a key out of the table. */
  lemma {:induction false} EvictionsInEveryRun(run: seq<Event>, minTTL: int)
    requires Run(run, minTTL)
    ensures After(run, minTTL).evictions == TakenOut(run, minTTL)
  {
    if run != [] {
      var n := |run| - 1;
      EvictionsInEveryRun(run[..n], minTTL);
      EvictionStep(After(run[..n], minTTL), run[n].step, run[n].at, minTTL, After(run, minTTL));
    }
  }
}
