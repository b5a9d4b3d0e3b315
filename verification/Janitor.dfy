/** When a caller of the in-memory limiter can be pushed off the table (internal/limiter/memory.go).

    A call that finds its entry dead retries, and gives up on the table after nine dead entries. Each
    was killed by a pass of its own, so a janitor whose passes neither overlap nor follow each other too
    closely cannot get that far. */
module Janitor {
  import opened Policies
  import M = MemoryModel
  import E = Eviction

  /** The janitor marking a live entry dead: when, in which pass, and when that pass read the clock. */
  datatype Kill = Kill(at: int, pass: E.ThreadId, started: int)

  /** What has happened so far: the kills of every key; for each call, how many entries its key had had
      with the one it first found; the keys each pass has met. */
  datatype Ledger = Ledger(kills: map<string, seq<Kill>>, base: map<E.ThreadId, nat>,
                           visited: map<E.ThreadId, set<string>>)

  const NOTHING := Ledger(map[], map[], map[])

  function KillsOf(g: Ledger, key: string): seq<Kill> {
    if key in g.kills then g.kills[key] else []
  }

  function VisitedBy(g: Ledger, t: E.ThreadId): set<string> {
    if t in g.visited then g.visited[t] else {}
  }

  predicate Sweeping(th: E.Thread) {
    th.Sweep? || th.SweepLock? || th.SweepDelete?
  }

  predicate IsPass(s: E.State, t: E.ThreadId) {
    t in s.threads && Sweeping(s.threads[t])
  }

  // ---------------------------------------------------------------- counting entries

  /** How many of the first n entries were allocated for a key. */
  function Cells(heap: seq<E.Cell>, key: string, n: nat): nat
    requires n <= |heap|
  {
    if n == 0 then 0 else Cells(heap, key, n - 1) + if heap[n - 1].key == key then 1 else 0
  }

  /** How many of them are dead. */
  function Dead(heap: seq<E.Cell>, key: string, n: nat): (d: nat)
    requires n <= |heap|
    ensures d <= Cells(heap, key, n)
  {
    if n == 0 then 0
    else Dead(heap, key, n - 1) + if heap[n - 1].key == key && heap[n - 1].entry.dead then 1 else 0
  }

  lemma {:induction false} CellsMono(heap: seq<E.Cell>, key: string, m: nat, n: nat)
    requires m <= n <= |heap|
    ensures Cells(heap, key, m) <= Cells(heap, key, n) && Dead(heap, key, m) <= Dead(heap, key, n)
  {
    if m < n { CellsMono(heap, key, m, n - 1); }
  }

  lemma {:induction false} CellsFrame(h: seq<E.Cell>, h': seq<E.Cell>, key: string, n: nat)
    requires E.Ages(h, h') && n <= |h|
    ensures Cells(h', key, n) == Cells(h, key, n) && Dead(h, key, n) <= Dead(h', key, n)
  {
    if n > 0 { CellsFrame(h, h', key, n - 1); }
  }

  lemma {:induction false} AllDead(heap: seq<E.Cell>, key: string, n: nat)
    requires n <= |heap| && forall e :: 0 <= e < n && heap[e].key == key ==> heap[e].entry.dead
    ensures Dead(heap, key, n) == Cells(heap, key, n)
  {
    if n > 0 { AllDead(heap, key, n - 1); }
  }

  /** No entry among the first n dies or revives. */
  ghost predicate SameLives(h: seq<E.Cell>, h': seq<E.Cell>, n: nat) {
    n <= |h| && n <= |h'| && forall e :: 0 <= e < n ==> h'[e].key == h[e].key && h'[e].entry.dead == h[e].entry.dead
  }

  lemma {:induction false} DeadFrame(h: seq<E.Cell>, h': seq<E.Cell>, key: string, n: nat)
    requires SameLives(h, h', n)
    ensures Dead(h', key, n) == Dead(h, key, n)
  {
    if n > 0 { DeadFrame(h, h', key, n - 1); }
  }

  /** Killing one entry adds one to its own key's dead. */
  lemma {:induction false} DeadOneMore(h: seq<E.Cell>, e: nat, v: M.Entry, key: string, n: nat)
    requires e < |h| && n <= |h| && v.dead && !h[e].entry.dead
    ensures Dead(h[e := h[e].(entry := v)], key, n) == Dead(h, key, n) + if e < n && h[e].key == key then 1 else 0
  {
    if n > 0 { DeadOneMore(h, e, v, key, n - 1); }
  }

  // ---------------------------------------------------------------- what a step writes down

  /** Does a step kill an entry of the key? */
  predicate KillsNow(s: E.State, step: E.Step, minTTL: int, key: string)
    requires E.Enabled(s, step)
  {
    step.Advance? && s.threads[step.t].SweepLock? && s.threads[step.t].key == key &&
    var th := s.threads[step.t];
    !s.heap[th.e].entry.dead && M.Idle(s.heap[th.e].entry, th.stamp, minTTL)
  }

  /** A call that has not looked its entry up yet. */
  predicate FirstLookup(th: E.Thread) {
    th.Lookup? && th.attempt == 0
  }

  /** What the table has to offer a key: its entries so far, and one more if it has none stored. */
  function Room(s: E.State, key: string): nat {
    Cells(s.heap, key, |s.heap|) + if key in s.table then 0 else 1
  }

  function Note(g: Ledger, s: E.State, step: E.Step, now: int, minTTL: int): Ledger
    requires E.Enabled(s, step)
  {
    match step
    case Visit(t, key) => g.(visited := g.visited[t := VisitedBy(g, t) + {key}])
    case Advance(t) =>
      var th := s.threads[t];
      if th.SweepLock? && KillsNow(s, step, minTTL, th.key)
      then g.(kills := g.kills[th.key := KillsOf(g, th.key) + [Kill(now, t, th.stamp)]])
      else if FirstLookup(th) then g.(base := g.base[t := Room(s, th.key)])
      else g
    case _ => g
  }

  /** No pass has begun after this one. */
  ghost predicate Latest(s: E.State, t: E.ThreadId)
    requires IsPass(s, t)
  {
    forall u :: IsPass(s, u) ==> s.threads[u].stamp <= s.threads[t].stamp
  }

  /** The janitor's passes start more than `d` apart and do not overlap: none begins before the last one
      is done with the key it has met, and none goes on once another has begun. A pass meets a key at
      most once, as Range promises. Nobody resets. */
  ghost predicate Orderly(g: Ledger, s: E.State, step: E.Step, now: int, d: int)
    requires E.Enabled(s, step)
  {
    match step
    case CallCleanup(_) => forall u :: IsPass(s, u) ==> s.threads[u].Sweep? && s.threads[u].stamp + d < now
    case Visit(t, key) => Sweeping(s.threads[t]) && Latest(s, t) && key !in VisitedBy(g, t)
    case Advance(t) => Sweeping(s.threads[t]) ==> Latest(s, t)
    case CallReset(_) => false
    case _ => true
  }

  // ---------------------------------------------------------------- the invariant

  /** The table holds the last entry allocated for a key, if any. */
  ghost predicate TableLast(s: E.State) {
    forall e :: 0 <= e < |s.heap| && s.heap[e].key in s.table ==> e <= s.table[s.heap[e].key]
  }

  /** How far a call has come: in attempt a it deals with at least the a-th entry after the one it first
      found. */
  ghost predicate CallFits(g: Ledger, s: E.State, t: E.ThreadId)
    requires t in s.threads
  {
    var th := s.threads[t];
    E.InAllow(th) && !FirstLookup(th) ==>
      && t in g.base && g.base[t] >= 1
      && (th.Lookup? ==> Room(s, th.key) >= g.base[t] + th.attempt)
      && (th.Store? || th.Lock? || th.Discard? ==>
            th.e < |s.heap| && Cells(s.heap, th.key, th.e + 1) >= g.base[t] + th.attempt)
      && (th.Lookup? || th.Store? || th.Lock? || th.Discard? ==> th.attempt <= E.MAX_RETRIES)
      && (th.Detach? ==> Dead(s.heap, th.key, |s.heap|) >= g.base[t] + E.MAX_RETRIES)
  }

  /** The entries that came after the first `base` died since `stamp`. */
  ghost predicate KilledSince(kills: seq<Kill>, stamp: int, base: nat) {
    forall i :: base <= i < |kills| ==> kills[i].at >= stamp
  }

  ghost predicate KilledBy(kills: seq<Kill>, now: int) {
    forall i :: 0 <= i < |kills| ==> kills[i].at <= now
  }

  ghost predicate CallTimes(g: Ledger, s: E.State, t: E.ThreadId, now: int)
    requires t in s.threads
  {
    var th := s.threads[t];
    E.InAllow(th) ==>
      && th.stamp <= now
      && (!FirstLookup(th) ==> t in g.base && KilledSince(KillsOf(g, th.key), th.stamp, g.base[t]))
  }

  ghost predicate NoReset(s: E.State) {
    forall t :: t in s.threads ==> !s.threads[t].Clear? && !s.threads[t].ClearLock? && !s.threads[t].ClearDelete?
  }

  /** Calls and entries fit the ledger. */
  ghost predicate CallsOk(g: Ledger, s: E.State, now: int) {
    && E.Protocol(s) && TableLast(s) && NoReset(s)
    && (forall key :: |KillsOf(g, key)| == Dead(s.heap, key, |s.heap|) && KilledBy(KillsOf(g, key), now))
    && (forall t :: t in s.threads ==> CallFits(g, s, t) && CallTimes(g, s, t, now))
  }

  // ---------------------------------------------------------------- how a step changes heap and table

  ghost predicate Stays(s: E.State, s': E.State) {
    s'.table == s.table && |s'.heap| == |s.heap|
  }

  ghost predicate Grows(s: E.State, s': E.State, key: string) {
    && key !in s.table && s'.table == s.table[key := |s.heap|]
    && |s'.heap| == |s.heap| + 1 && s'.heap[|s.heap|] == E.Cell(key, M.FRESH)
  }

  ghost predicate Shrinks(s: E.State, s': E.State, key: string) {
    s'.table == s.table - {key} && |s'.heap| == |s.heap|
  }

  /** Memory after a step: entries age, and the table stays, grows by a new entry or loses one. */
  ghost predicate Shape(s: E.State, s': E.State) {
    E.Ages(s.heap, s'.heap) && (Stays(s, s') || exists key :: Grows(s, s', key) || Shrinks(s, s', key))
  }

  lemma AllowShape(s: E.State, t: E.ThreadId, now: int, s': E.State)
    requires E.Enabled(s, E.Advance(t)) && E.InAllow(s.threads[t]) && s' == E.AllowStep(s, t, now)
    ensures Stays(s, s') || Grows(s, s', s.threads[t].key) || Shrinks(s, s', s.threads[t].key)
  {
  }

  lemma SweepShape(s: E.State, t: E.ThreadId, minTTL: int, s': E.State)
    requires E.Enabled(s, E.Advance(t)) && E.HasEntry(s.threads[t]) && s' == E.SweepStep(s, t, minTTL)
    ensures Stays(s, s') || Shrinks(s, s', s.threads[t].key)
  {
  }

  lemma PeekShape(s: E.State, t: E.ThreadId, now: int, s': E.State)
    requires E.Enabled(s, E.Advance(t)) && s' == E.PeekStep(s, t, now)
    ensures Stays(s, s')
  {
  }

  lemma NextShape(s: E.State, step: E.Step, now: int, minTTL: int, s': E.State)
    requires E.Protocol(s) && E.Enabled(s, step) && s' == E.Next(s, step, now, minTTL)
    ensures Shape(s, s')
  {
    E.ProtocolKept(s, step, now, minTTL);
    if step.Advance? {
      var th := s.threads[step.t];
      if E.InAllow(th) { AllowShape(s, step.t, now, s'); }
      else if th.PeekClock? || th.PeekLock? { PeekShape(s, step.t, now, s'); }
      else { SweepShape(s, step.t, minTTL, s'); }
    }
  }

  lemma RoomKept(s: E.State, s': E.State, key: string)
    requires Shape(s, s')
    ensures Room(s, key) <= Room(s', key)
  {
    CellsFrame(s.heap, s'.heap, key, |s.heap|);
  }

  lemma TableLastKept(s: E.State, s': E.State)
    requires E.Protocol(s) && TableLast(s) && Shape(s, s')
    ensures TableLast(s')
  {
  }

  lemma DeadKept(s: E.State, s': E.State, key: string)
    requires Shape(s, s')
    ensures Dead(s.heap, key, |s.heap|) <= Dead(s'.heap, key, |s'.heap|)
  {
    CellsFrame(s.heap, s'.heap, key, |s.heap|);
    CellsMono(s'.heap, key, |s.heap|, |s'.heap|);
  }

  // ---------------------------------------------------------------- kills are deaths

  lemma AllowLives(s: E.State, t: E.ThreadId, now: int, s': E.State)
    requires E.Enabled(s, E.Advance(t)) && E.InAllow(s.threads[t]) && s' == E.AllowStep(s, t, now)
    ensures SameLives(s.heap, s'.heap, |s.heap|)
  {
  }

  lemma SweepLives(s: E.State, t: E.ThreadId, now: int, minTTL: int, s': E.State)
    requires E.Enabled(s, E.Advance(t)) && !s.threads[t].ClearLock? && s' == E.SweepStep(s, t, minTTL)
    requires s.threads[t].SweepLock? ==> !KillsNow(s, E.Advance(t), minTTL, s.threads[t].key)
    ensures SameLives(s.heap, s'.heap, |s.heap|)
  {
  }

  lemma PeekLives(s: E.State, t: E.ThreadId, now: int, s': E.State)
    requires E.Enabled(s, E.Advance(t)) && s' == E.PeekStep(s, t, now)
    ensures SameLives(s.heap, s'.heap, |s.heap|)
  {
  }

  lemma LivesKept(s: E.State, step: E.Step, now: int, minTTL: int, s': E.State)
    requires E.Enabled(s, step) && NoReset(s) && s' == E.Next(s, step, now, minTTL)
    requires step.Advance? && s.threads[step.t].SweepLock? ==> !KillsNow(s, step, minTTL, s.threads[step.t].key)
    ensures SameLives(s.heap, s'.heap, |s.heap|)
  {
    if step.Advance? {
      var th := s.threads[step.t];
      if E.InAllow(th) { AllowLives(s, step.t, now, s'); }
      else if th.PeekClock? || th.PeekLock? { PeekLives(s, step.t, now, s'); }
      else { SweepLives(s, step.t, now, minTTL, s'); }
    }
  }

  lemma NoNewDead(s: E.State, s': E.State, key: string)
    requires Shape(s, s') && SameLives(s.heap, s'.heap, |s.heap|)
    ensures Dead(s'.heap, key, |s'.heap|) == Dead(s.heap, key, |s.heap|)
  {
    DeadFrame(s.heap, s'.heap, key, |s.heap|);
  }

  /** Every kill is a death of its key and there are no other deaths. */
  lemma KillsAreDeaths(g: Ledger, s: E.State, step: E.Step, now: int, minTTL: int, g': Ledger, s': E.State, key: string)
    requires E.Protocol(s) && NoReset(s) && E.Enabled(s, step) && |KillsOf(g, key)| == Dead(s.heap, key, |s.heap|)
    requires s' == E.Next(s, step, now, minTTL) && g' == Note(g, s, step, now, minTTL)
    ensures |KillsOf(g', key)| == Dead(s'.heap, key, |s'.heap|)
  {
    if step.Advance? && s.threads[step.t].SweepLock? && KillsNow(s, step, minTTL, s.threads[step.t].key) {
      var th := s.threads[step.t];
      assert E.ThreadFits(s.heap, th);
      DeadOneMore(s.heap, th.e, M.Visit(s.heap[th.e].entry, th.stamp, minTTL), key, |s.heap|);
    } else {
      NextShape(s, step, now, minTTL, s');
      LivesKept(s, step, now, minTTL, s');
      NoNewDead(s, s', key);
    }
  }

  // ---------------------------------------------------------------- a call's progress

  lemma {:induction false} CellsNone(heap: seq<E.Cell>, key: string, m: nat, n: nat)
    requires m <= n <= |heap| && forall e :: m <= e < n ==> heap[e].key != key
    ensures Cells(heap, key, m) == Cells(heap, key, n)
  {
    if m < n { CellsNone(heap, key, m, n - 1); }
  }

  /** Nothing was allocated for a key after the entry the table holds. */
  lemma StoredIsLast(s: E.State, key: string)
    requires E.Protocol(s) && TableLast(s) && key in s.table
    ensures Cells(s.heap, key, s.table[key] + 1) == Cells(s.heap, key, |s.heap|)
  {
    CellsNone(s.heap, key, s.table[key] + 1, |s.heap|);
  }

  lemma RoomIsPositive(s: E.State, key: string)
    requires E.Protocol(s)
    ensures Room(s, key) >= 1
  {
    if key in s.table { CellsMono(s.heap, key, s.table[key] + 1, |s.heap|); }
  }

  /** Looking up finds the last entry of the key there can be. */
  lemma LookupFinds(s: E.State, t: E.ThreadId, now: int, s': E.State, key: string)
    requires E.Protocol(s) && TableLast(s) && E.Enabled(s, E.Advance(t)) && s.threads[t].Lookup?
    requires key == s.threads[t].key && s' == E.AllowStep(s, t, now)
    ensures t in s'.threads && s'.threads[t].Store? && s'.threads[t].key == key
    ensures s'.threads[t].attempt == s.threads[t].attempt && s'.threads[t].e < |s'.heap|
    ensures Cells(s'.heap, key, s'.threads[t].e + 1) == Room(s, key)
  {
    if key in s.table {
      StoredIsLast(s, key);
    } else {
      E.AllocateKeeps(s, key);
      CellsFrame(s.heap, s'.heap, key, |s.heap|);
    }
  }

  lemma LookupFits(g: Ledger, s: E.State, t: E.ThreadId, now: int, g': Ledger, s': E.State)
    requires E.Protocol(s) && TableLast(s) && E.Enabled(s, E.Advance(t)) && s.threads[t].Lookup?
    requires CallFits(g, s, t) && s' == E.AllowStep(s, t, now)
    requires g' == if FirstLookup(s.threads[t]) then g.(base := g.base[t := Room(s, s.threads[t].key)]) else g
    ensures t in s'.threads && CallFits(g', s', t)
  {
    LookupFinds(s, t, now, s', s.threads[t].key);
    RoomIsPositive(s, s.threads[t].key);
  }

  lemma StoreFits(g: Ledger, s: E.State, t: E.ThreadId, now: int, s': E.State)
    requires E.Protocol(s) && E.Enabled(s, E.Advance(t)) && s.threads[t].Store?
    requires CallFits(g, s, t) && s' == E.AllowStep(s, t, now)
    ensures t in s'.threads && CallFits(g, s', t)
  {
    var e := s.threads[t].e;
    E.WithEntryKeeps(s, e, s.heap[e].entry.(lastSeen := s.threads[t].stamp));
    CellsFrame(s.heap, s'.heap, s.threads[t].key, e + 1);
  }

  lemma LockFits(g: Ledger, s: E.State, t: E.ThreadId, now: int, s': E.State)
    requires E.Enabled(s, E.Advance(t)) && (s.threads[t].Lock? || s.threads[t].Detach?)
    requires CallFits(g, s, t) && s' == E.AllowStep(s, t, now)
    ensures t in s'.threads && CallFits(g, s', t)
  {
  }

  /** Behind a dead entry that was once stored, every entry of the key is dead. */
  lemma DeadBehind(s: E.State, key: string, e: nat)
    requires E.Protocol(s) && TableLast(s) && e < |s.heap| && s.heap[e].key == key && s.heap[e].entry.dead
    ensures Dead(s.heap, key, |s.heap|) >= Cells(s.heap, key, e + 1)
  {
    AllDead(s.heap, key, e + 1);
    CellsMono(s.heap, key, e + 1, |s.heap|);
  }

  /** Once a dead entry is out of the table, the next one to be found there is a newer one. */
  lemma RoomAfter(s: E.State, key: string, e: nat, s': E.State)
    requires E.Protocol(s) && TableLast(s) && e < |s.heap| && s.heap[e].key == key
    requires s'.heap == s.heap && s'.table == (if E.InTable(s, key, e) then s.table - {key} else s.table)
    ensures Room(s', key) > Cells(s.heap, key, e + 1)
  {
    CellsMono(s.heap, key, e + 1, |s.heap|);
    if key in s'.table {
      CellsMono(s.heap, key, e + 1, s.table[key]);
      CellsMono(s.heap, key, s.table[key] + 1, |s.heap|);
    }
  }

  lemma DiscardFits(g: Ledger, s: E.State, t: E.ThreadId, now: int, s': E.State)
    requires E.Protocol(s) && TableLast(s) && E.Enabled(s, E.Advance(t)) && s.threads[t].Discard?
    requires CallFits(g, s, t) && s' == E.AllowStep(s, t, now)
    ensures t in s'.threads && CallFits(g, s', t)
  {
    var th := s.threads[t];
    assert E.ThreadFits(s.heap, th);
    if th.attempt < E.MAX_RETRIES {
      RoomAfter(s, th.key, th.e, s');
    } else {
      DeadBehind(s, th.key, th.e);
    }
  }

  /** A caller's own step. */
  lemma OwnCallFits(g: Ledger, s: E.State, t: E.ThreadId, now: int, g': Ledger, s': E.State)
    requires E.Protocol(s) && TableLast(s) && E.Enabled(s, E.Advance(t)) && E.InAllow(s.threads[t])
    requires CallFits(g, s, t) && s' == E.AllowStep(s, t, now)
    requires g' == if FirstLookup(s.threads[t]) then g.(base := g.base[t := Room(s, s.threads[t].key)]) else g
    ensures t in s'.threads && CallFits(g', s', t)
  {
    if s.threads[t].Lookup? { LookupFits(g, s, t, now, g', s'); }
    else if s.threads[t].Store? { StoreFits(g, s, t, now, s'); }
    else if s.threads[t].Discard? { DiscardFits(g, s, t, now, s'); }
    else { LockFits(g, s, t, now, s'); }
  }

  /** The other callers: entries are only added, the table never goes back to an older one. */
  lemma OtherCallFits(g: Ledger, g': Ledger, s: E.State, s': E.State, t: E.ThreadId)
    requires t in s.threads && CallFits(g, s, t) && t in s'.threads && s'.threads[t] == s.threads[t]
    requires t in g.base ==> t in g'.base && g'.base[t] == g.base[t]
    requires Shape(s, s')
    ensures CallFits(g', s', t)
  {
    var th := s.threads[t];
    if E.InAllow(th) {
      RoomKept(s, s', th.key);
      DeadKept(s, s', th.key);
      if th.Store? || th.Lock? || th.Discard? { CellsFrame(s.heap, s'.heap, th.key, th.e + 1); }
    }
  }

  /** Kills are only added, at the instant they happen. */
  ghost predicate KillsGrow(g: Ledger, g': Ledger, now: int) {
    forall key :: KillsOf(g, key) <= KillsOf(g', key) &&
                  forall i :: |KillsOf(g, key)| <= i < |KillsOf(g', key)| ==> KillsOf(g', key)[i].at == now
  }

  lemma NoteGrows(g: Ledger, s: E.State, step: E.Step, now: int, minTTL: int, g': Ledger)
    requires E.Enabled(s, step) && g' == Note(g, s, step, now, minTTL)
    ensures KillsGrow(g, g', now)
    ensures forall t :: t in g.base && !(step.Advance? && step.t == t && FirstLookup(s.threads[t])) ==>
              t in g'.base && g'.base[t] == g.base[t]
  {
  }

  lemma TimesKept(g: Ledger, g': Ledger, s: E.State, s': E.State, t: E.ThreadId, now: int, now': int)
    requires t in s.threads && CallTimes(g, s, t, now) && t in s'.threads && now <= now'
    requires E.InAllow(s'.threads[t]) ==> E.InAllow(s.threads[t]) && s'.threads[t].key == s.threads[t].key
                                          && s'.threads[t].stamp == s.threads[t].stamp
    requires !FirstLookup(s.threads[t]) ==> !FirstLookup(s'.threads[t])
    requires E.InAllow(s.threads[t]) && !FirstLookup(s.threads[t]) && t in g.base ==>
               t in g'.base && g'.base[t] == g.base[t]
    requires E.InAllow(s'.threads[t]) && FirstLookup(s.threads[t]) ==>
               FirstLookup(s'.threads[t]) || (t in g'.base && |KillsOf(g', s.threads[t].key)| <= g'.base[t])
    requires KillsGrow(g, g', now')
    ensures CallTimes(g', s', t, now')
  {
    if E.InAllow(s'.threads[t]) {
      assert KillsOf(g, s.threads[t].key) <= KillsOf(g', s.threads[t].key);
    }
  }

  /** Every entry of its key that is dead by its first lookup is one of those it has by then. */
  lemma FirstLookupTimes(g: Ledger, s: E.State, t: E.ThreadId, g': Ledger)
    requires t in s.threads && s.threads[t].Lookup?
    requires |KillsOf(g, s.threads[t].key)| == Dead(s.heap, s.threads[t].key, |s.heap|)
    requires g' == g.(base := g.base[t := Room(s, s.threads[t].key)])
    ensures |KillsOf(g', s.threads[t].key)| <= g'.base[t]
  {
  }

  /** A step touches no thread but its own. */
  ghost predicate OneThread(s: E.State, s': E.State, t: E.ThreadId) {
    t in s'.threads && s'.threads == s.threads[t := s'.threads[t]]
  }

  lemma AllowMoves(s: E.State, t: E.ThreadId, now: int, s': E.State)
    requires E.Enabled(s, E.Advance(t)) && E.InAllow(s.threads[t]) && s' == E.AllowStep(s, t, now)
    ensures OneThread(s, s', t)
    ensures E.InAllow(s'.threads[t]) ==>
              s'.threads[t].key == s.threads[t].key && s'.threads[t].stamp == s.threads[t].stamp
    ensures !FirstLookup(s'.threads[t])
    ensures !Sweeping(s'.threads[t]) && (s'.threads[t].Returned? ==> s'.threads[t].detached == s.threads[t].Detach?)
    ensures s'.threads[t].Detach? ==> s.threads[t].Discard? || s.threads[t].Detach?
    ensures !s'.threads[t].Clear? && !s'.threads[t].ClearLock? && !s'.threads[t].ClearDelete?
  {
  }

  lemma SweepMoves(s: E.State, t: E.ThreadId, minTTL: int, s': E.State)
    requires E.Enabled(s, E.Advance(t)) && Sweeping(s.threads[t]) && s' == E.SweepStep(s, t, minTTL)
    ensures OneThread(s, s', t) && Sweeping(s'.threads[t]) && s'.threads[t].stamp == s.threads[t].stamp
    ensures !s'.threads[t].SweepLock?
  {
  }

  lemma PeekMoves(s: E.State, t: E.ThreadId, now: int, s': E.State)
    requires E.Enabled(s, E.Advance(t)) && (s.threads[t].PeekClock? || s.threads[t].PeekLock?)
    requires s' == E.PeekStep(s, t, now)
    ensures OneThread(s, s', t) && (s'.threads[t].PeekLock? || s'.threads[t].Idle?)
  {
  }

  lemma OthersMove(s: E.State, step: E.Step, now: int, minTTL: int, s': E.State)
    requires E.Enabled(s, step) && NoReset(s) && !step.CallReset? && s' == E.Next(s, step, now, minTTL)
    requires !(step.Advance? && E.InAllow(s.threads[step.t]))
    ensures OneThread(s, s', step.t)
    ensures E.InAllow(s'.threads[step.t]) <==> step.CallAllow?
    ensures !s'.threads[step.t].Clear? && !s'.threads[step.t].ClearLock? && !s'.threads[step.t].ClearDelete?
  {
    if step.Advance? {
      if s.threads[step.t].PeekClock? || s.threads[step.t].PeekLock? { PeekMoves(s, step.t, now, s'); }
      else { SweepMoves(s, step.t, minTTL, s'); }
    }
  }

  lemma OwnKept(g: Ledger, s: E.State, step: E.Step, before: int, now: int, minTTL: int, g': Ledger, s': E.State)
    requires CallsOk(g, s, before) && before <= now && E.Enabled(s, step) && !step.CallReset?
    requires s' == E.Next(s, step, now, minTTL) && g' == Note(g, s, step, now, minTTL)
    ensures OneThread(s, s', step.t) && CallFits(g', s', step.t) && CallTimes(g', s', step.t, now)
    ensures !s'.threads[step.t].Clear? && !s'.threads[step.t].ClearLock? && !s'.threads[step.t].ClearDelete?
  {
    var t := step.t;
    if step.Advance? && E.InAllow(s.threads[t]) {
      assert CallFits(g, s, t) && CallTimes(g, s, t, before);
      OwnCallFits(g, s, t, now, g', s');
      AllowMoves(s, t, now, s');
      if FirstLookup(s.threads[t]) { FirstLookupTimes(g, s, t, g'); }
      TimesKept(g, g', s, s', t, before, now);
    } else {
      OthersMove(s, step, now, minTTL, s');
    }
  }

  lemma CallsKept(g: Ledger, s: E.State, step: E.Step, before: int, now: int, minTTL: int, g': Ledger, s': E.State)
    requires CallsOk(g, s, before) && before <= now && E.Enabled(s, step) && !step.CallReset?
    requires s' == E.Next(s, step, now, minTTL) && g' == Note(g, s, step, now, minTTL)
    ensures CallsOk(g', s', now)
  {
    E.ProtocolKept(s, step, now, minTTL);
    NextShape(s, step, now, minTTL, s');
    TableLastKept(s, s');
    NoteGrows(g, s, step, now, minTTL, g');
    OwnKept(g, s, step, before, now, minTTL, g', s');
    forall key ensures |KillsOf(g', key)| == Dead(s'.heap, key, |s'.heap|) && KilledBy(KillsOf(g', key), now) {
      KillsAreDeaths(g, s, step, now, minTTL, g', s', key);
      assert KilledBy(KillsOf(g, key), before) && KillsOf(g, key) <= KillsOf(g', key);
    }
    forall t | t in s'.threads ensures CallFits(g', s', t) && CallTimes(g', s', t, now) {
      if t != step.t {
        OtherCallFits(g, g', s, s', t);
        TimesKept(g, g', s, s', t, before, now);
      }
    }
  }

  // ---------------------------------------------------------------- the janitor's passes

  /** A kill on record: its pass read the clock before, goes on, and no pass began in between. */
  ghost predicate KillFits(g: Ledger, s: E.State, key: string, k: Kill, now: int) {
    && IsPass(s, k.pass) && s.threads[k.pass].stamp == k.started <= k.at <= now
    && key in VisitedBy(g, k.pass)
    && !(s.threads[k.pass].SweepLock? && s.threads[k.pass].key == key)
    && forall v :: IsPass(s, v) ==> s.threads[v].stamp <= k.started || k.at <= s.threads[v].stamp
  }

  /** Each kill comes from a pass of its own, begun more than `d` after the one before and after its kill. */
  ghost predicate Apart(kills: seq<Kill>, d: int) {
    forall i, j :: 0 <= i < j < |kills| ==> kills[i].started + d < kills[j].started && kills[i].at <= kills[j].started
  }

  ghost predicate KillsFit(g: Ledger, s: E.State, key: string, now: int, d: int) {
    && Apart(KillsOf(g, key), d)
    && forall i :: 0 <= i < |KillsOf(g, key)| ==> KillFits(g, s, key, KillsOf(g, key)[i], now)
  }

  ghost predicate PassesApart(g: Ledger, s: E.State, now: int, d: int) {
    && (forall u :: IsPass(s, u) ==>
                      s.threads[u].stamp <= now && (s.threads[u].SweepLock? ==> s.threads[u].key in VisitedBy(g, u)))
    && forall u, v :: IsPass(s, u) && IsPass(s, v) && u != v ==>
                        s.threads[u].stamp + d < s.threads[v].stamp || s.threads[v].stamp + d < s.threads[u].stamp
  }

  ghost predicate PassesOk(g: Ledger, s: E.State, now: int, d: int) {
    && 0 <= d && PassesApart(g, s, now, d)
    && forall key :: KillsFit(g, s, key, now, d)
  }

  /** What a step does to the thread that takes it, as far as passes go. */
  ghost predicate PassMoves(g: Ledger, g': Ledger, s: E.State, s': E.State, t: E.ThreadId, now: int, d: int) {
    && OneThread(s, s', t)
    && (IsPass(s, t) ==> IsPass(s', t) && s'.threads[t].stamp == s.threads[t].stamp)
    && (IsPass(s', t) && !IsPass(s, t) ==>
          && s'.threads[t] == E.Sweep(now)
          && forall u :: IsPass(s, u) ==> s.threads[u].stamp + d < now)
    && (s'.threads[t].SweepLock? ==>
          s'.threads[t].key !in VisitedBy(g, t) && s'.threads[t].key in VisitedBy(g', t))
    && forall u :: VisitedBy(g, u) <= VisitedBy(g', u)
  }

  lemma AdvanceMovesPass(g: Ledger, s: E.State, t: E.ThreadId, now: int, minTTL: int, d: int, g': Ledger, s': E.State)
    requires E.Enabled(s, E.Advance(t)) && NoReset(s)
    requires s' == E.AdvanceThread(s, t, now, minTTL) && g' == Note(g, s, E.Advance(t), now, minTTL)
    ensures PassMoves(g, g', s, s', t, now, d)
  {
    var th := s.threads[t];
    if E.InAllow(th) { AllowMoves(s, t, now, s'); }
    else if th.PeekClock? || th.PeekLock? { PeekMoves(s, t, now, s'); }
    else { SweepMoves(s, t, minTTL, s'); }
  }

  lemma StepMovesPass(g: Ledger, s: E.State, step: E.Step, now: int, minTTL: int, d: int, g': Ledger, s': E.State)
    requires E.Enabled(s, step) && NoReset(s) && Orderly(g, s, step, now, d)
    requires s' == E.Next(s, step, now, minTTL) && g' == Note(g, s, step, now, minTTL)
    ensures PassMoves(g, g', s, s', step.t, now, d)
  {
    if step.Advance? { AdvanceMovesPass(g, s, step.t, now, minTTL, d, g', s'); }
  }

  lemma ApartKept(g: Ledger, g': Ledger, s: E.State, s': E.State, t: E.ThreadId, before: int, now: int, d: int)
    requires PassesApart(g, s, before, d) && before <= now && PassMoves(g, g', s, s', t, now, d)
    ensures PassesApart(g', s', now, d)
  {
  }

  lemma KillStillFits(g: Ledger, g': Ledger, s: E.State, s': E.State, t: E.ThreadId, key: string, k: Kill, before: int,
                      now: int, d: int)
    requires KillFits(g, s, key, k, before) && before <= now && PassMoves(g, g', s, s', t, now, d)
    ensures KillFits(g', s', key, k, now)
  {
  }

  /** The kill a pass makes comes after all others of the key, and from a later pass. */
  lemma NewKillFits(g: Ledger, g': Ledger, s: E.State, s': E.State, t: E.ThreadId, key: string, before: int, now: int,
                    d: int, k: Kill)
    requires PassesApart(g, s, before, d) && KillsFit(g, s, key, before, d) && before <= now && d >= 0
    requires IsPass(s, t) && Latest(s, t) && s.threads[t].SweepLock? && s.threads[t].key == key
    requires PassMoves(g, g', s, s', t, now, d) && !s'.threads[t].SweepLock? && k == Kill(now, t, s.threads[t].stamp)
    ensures KillFits(g', s', key, k, now)
    ensures Apart(KillsOf(g, key) + [k], d)
  {
    var kills := KillsOf(g, key);
    forall i | 0 <= i < |kills| ensures kills[i].started + d < k.started && kills[i].at <= k.started {
      assert KillFits(g, s, key, kills[i], before);
      assert IsPass(s, kills[i].pass) && kills[i].pass != t;
    }
  }

  lemma KillsKept(g: Ledger, s: E.State, step: E.Step, before: int, now: int, minTTL: int, d: int, g': Ledger,
                  s': E.State, key: string)
    requires PassesOk(g, s, before, d) && before <= now && E.Enabled(s, step) && Orderly(g, s, step, now, d)
    requires s' == E.Next(s, step, now, minTTL) && g' == Note(g, s, step, now, minTTL)
    requires PassMoves(g, g', s, s', step.t, now, d)
    ensures KillsFit(g', s', key, now, d)
  {
    assert KillsFit(g, s, key, before, d);
    forall i | 0 <= i < |KillsOf(g, key)| ensures KillFits(g', s', key, KillsOf(g, key)[i], now) {
      KillStillFits(g, g', s, s', step.t, key, KillsOf(g, key)[i], before, now, d);
    }
    if KillsNow(s, step, minTTL, key) {
      SweepMoves(s, step.t, minTTL, s');
      NewKillFits(g, g', s, s', step.t, key, before, now, d, Kill(now, step.t, s.threads[step.t].stamp));
    }
  }

  lemma PassesKept(g: Ledger, s: E.State, step: E.Step, before: int, now: int, minTTL: int, d: int, g': Ledger,
                   s': E.State)
    requires PassesOk(g, s, before, d) && NoReset(s) && before <= now
    requires E.Enabled(s, step) && Orderly(g, s, step, now, d)
    requires s' == E.Next(s, step, now, minTTL) && g' == Note(g, s, step, now, minTTL)
    ensures PassesOk(g', s', now, d)
  {
    StepMovesPass(g, s, step, now, minTTL, d, g', s');
    ApartKept(g, g', s, s', step.t, before, now, d);
    forall key ensures KillsFit(g', s', key, now, d) {
      KillsKept(g, s, step, before, now, minTTL, d, g', s', key);
    }
  }

  // ---------------------------------------------------------------- dead entries in the table

  /** The pass that has killed an entry is about to take it out of the table. */
  ghost predicate Pending(g: Ledger, s: E.State, key: string) {
    var kills := KillsOf(g, key);
    && key in s.table && kills != []
    && var t := kills[|kills| - 1].pass;
       && IsPass(s, t) && s.threads[t].SweepDelete? && s.threads[t].key == key && s.threads[t].e == s.table[key]
  }

  ghost predicate DeadStored(s: E.State, key: string) {
    key in s.table && s.table[key] < |s.heap| && s.heap[s.table[key]].entry.dead
  }

  ghost predicate BusyIsLatest(s: E.State) {
    forall t :: IsPass(s, t) && !s.threads[t].Sweep? ==> Latest(s, t)
  }

  /** A dead entry is in the table only while its pass has yet to delete it; and no pass begins before. */
  ghost predicate TableOk(g: Ledger, s: E.State) {
    && BusyIsLatest(s)
    && forall key :: DeadStored(s, key) ==> Pending(g, s, key)
  }

  lemma BusyKept(g: Ledger, s: E.State, step: E.Step, now: int, minTTL: int, d: int, g': Ledger, s': E.State)
    requires BusyIsLatest(s) && d >= 0 && E.Enabled(s, step) && Orderly(g, s, step, now, d)
    requires PassMoves(g, g', s, s', step.t, now, d)
    requires s' == E.Next(s, step, now, minTTL)
    ensures BusyIsLatest(s')
  {
    forall t | IsPass(s', t) && !s'.threads[t].Sweep? ensures Latest(s', t) {
      assert IsPass(s, t);
    }
  }

  /** The entry a step kills is the one in the table, and its pass will delete it. */
  lemma KillIsPending(g: Ledger, s: E.State, t: E.ThreadId, now: int, minTTL: int, key: string, g': Ledger, s': E.State)
    requires E.Protocol(s) && E.Enabled(s, E.Advance(t)) && KillsNow(s, E.Advance(t), minTTL, key)
    requires s' == E.SweepStep(s, t, minTTL) && g' == Note(g, s, E.Advance(t), now, minTTL)
    ensures Pending(g', s', key)
  {
    assert E.ThreadFits(s.heap, s.threads[t]);
    assert E.InTable(s, key, s.threads[t].e);
  }

  /** A dead entry that stays in the table has been left alone. */
  lemma PendingKept(g: Ledger, s: E.State, step: E.Step, now: int, minTTL: int, d: int, g': Ledger, s': E.State,
                    key: string)
    requires E.Protocol(s) && Pending(g, s, key) && DeadStored(s, key) && E.Enabled(s, step)
    requires PassMoves(g, g', s, s', step.t, now, d) && key in s'.table && s'.table[key] == s.table[key]
    requires s' == E.Next(s, step, now, minTTL) && g' == Note(g, s, step, now, minTTL)
    ensures Pending(g', s', key)
  {
    var kills := KillsOf(g, key);
    var t := kills[|kills| - 1].pass;
    if step.t == t {
      DeletesItsEntry(s, t, minTTL, s', key);
    }
    assert KillsOf(g', key) == kills by { NoKillOfDead(g, s, step, now, minTTL, g', key); }
  }

  lemma DeletesItsEntry(s: E.State, t: E.ThreadId, minTTL: int, s': E.State, key: string)
    requires E.Enabled(s, E.Advance(t)) && s.threads[t].SweepDelete? && s.threads[t].key == key
    requires key in s.table && s.threads[t].e == s.table[key] && s' == E.SweepStep(s, t, minTTL)
    ensures key !in s'.table
  {
  }

  lemma NoKillOfDead(g: Ledger, s: E.State, step: E.Step, now: int, minTTL: int, g': Ledger, key: string)
    requires E.Protocol(s) && DeadStored(s, key) && E.Enabled(s, step) && g' == Note(g, s, step, now, minTTL)
    ensures KillsOf(g', key) == KillsOf(g, key)
  {
    if KillsNow(s, step, minTTL, key) {
      assert E.ThreadFits(s.heap, s.threads[step.t]);
    }
  }

  /** What a key has in the table after a step was there before, or is new and live. */
  lemma StoredBefore(s: E.State, s': E.State, key: string)
    requires E.Protocol(s) && Shape(s, s') && DeadStored(s', key)
    ensures key in s.table && s'.table[key] == s.table[key] && s.table[key] < |s.heap|
  {
  }

  lemma TableKept(g: Ledger, s: E.State, step: E.Step, now: int, minTTL: int, d: int, g': Ledger, s': E.State)
    requires E.Protocol(s) && NoReset(s) && TableOk(g, s) && d >= 0
    requires E.Enabled(s, step) && Orderly(g, s, step, now, d)
    requires s' == E.Next(s, step, now, minTTL) && g' == Note(g, s, step, now, minTTL)
    requires PassMoves(g, g', s, s', step.t, now, d)
    ensures TableOk(g', s')
  {
    BusyKept(g, s, step, now, minTTL, d, g', s');
    NextShape(s, step, now, minTTL, s');
    forall key | DeadStored(s', key) ensures Pending(g', s', key) {
      StoredBefore(s, s', key);
      if DeadStored(s, key) {
        PendingKept(g, s, step, now, minTTL, d, g', s', key);
      } else if KillsNow(s, step, minTTL, key) {
        KillIsPending(g, s, step.t, now, minTTL, key, g', s');
      } else {
        StaysAlive(s, step, now, minTTL, s', key);
      }
    }
  }

  lemma StaysAlive(s: E.State, step: E.Step, now: int, minTTL: int, s': E.State, key: string)
    requires E.Protocol(s) && NoReset(s) && E.Enabled(s, step) && s' == E.Next(s, step, now, minTTL)
    requires key in s.table && s.table[key] < |s.heap| && !s.heap[s.table[key]].entry.dead
    requires !KillsNow(s, step, minTTL, key)
    ensures s.table[key] < |s'.heap| && !s'.heap[s.table[key]].entry.dead
  {
    if step.Advance? && s.threads[step.t].SweepLock? && KillsNow(s, step, minTTL, s.threads[step.t].key) {
      assert E.ThreadFits(s.heap, s.threads[step.t]);
    } else {
      LivesKept(s, step, now, minTTL, s');
    }
  }

  // ---------------------------------------------------------------- passes since a call began

  /** Once the entry a call first found is dead, the passes after the one that killed it began since the
      call read the clock. */
  ghost predicate Fence(s: E.State, kills: seq<Kill>, stamp: int, base: nat) {
    1 <= base <= |kills| ==>
      forall v :: IsPass(s, v) ==> s.threads[v].stamp <= kills[base - 1].started || stamp <= s.threads[v].stamp
  }

  ghost predicate CallFenced(g: Ledger, s: E.State, t: E.ThreadId)
    requires t in s.threads
  {
    var th := s.threads[t];
    E.InAllow(th) && !FirstLookup(th) && t in g.base ==> Fence(s, KillsOf(g, th.key), th.stamp, g.base[t])
  }

  ghost predicate Fenced(g: Ledger, s: E.State) {
    forall t :: t in s.threads ==> CallFenced(g, s, t)
  }

  lemma {:induction false} NoneAlive(heap: seq<E.Cell>, key: string, n: nat, e: nat)
    requires e < n <= |heap| && heap[e].key == key && Dead(heap, key, n) == Cells(heap, key, n)
    ensures heap[e].entry.dead
  {
    if e < n - 1 { NoneAlive(heap, key, n - 1, e); }
  }

  /** The first lookup: if what it finds is dead, the pass that killed it is still the latest. */
  lemma FenceBegins(g: Ledger, s: E.State, key: string, before: int, d: int, stamp: int)
    requires E.Protocol(s) && TableOk(g, s) && KillsFit(g, s, key, before, d)
    requires |KillsOf(g, key)| == Dead(s.heap, key, |s.heap|)
    ensures Fence(s, KillsOf(g, key), stamp, Room(s, key))
  {
    var kills := KillsOf(g, key);
    if Room(s, key) <= |kills| {
      NoneAlive(s.heap, key, |s.heap|, s.table[key]);
      assert DeadStored(s, key);
      assert KillFits(g, s, key, kills[|kills| - 1], before);
      assert Latest(s, kills[|kills| - 1].pass);
    }
  }

  /** Passes that begin later, and kills made later, keep to the fence. */
  lemma FenceKept(s: E.State, s': E.State, g: Ledger, g': Ledger, kills: seq<Kill>, kills': seq<Kill>, stamp: int,
                  base: nat, t: E.ThreadId, key: string, now: int, d: int)
    requires Fence(s, kills, stamp, base) && stamp <= now && PassMoves(g, g', s, s', t, now, d)
    requires kills == KillsOf(g, key) && kills' == KillsOf(g', key) && kills <= kills'
    requires forall i :: |kills| <= i < |kills'| ==> kills'[i].at == now && KillFits(g', s', key, kills'[i], now)
    ensures Fence(s', kills', stamp, base)
  {
    if 1 <= base <= |kills'| {
      forall v | IsPass(s', v)
        ensures s'.threads[v].stamp <= kills'[base - 1].started || stamp <= s'.threads[v].stamp
      {
        if base <= |kills| { assert kills'[base - 1] == kills[base - 1]; }
      }
    }
  }

  lemma OtherFenced(g: Ledger, s: E.State, t: E.ThreadId, u: E.ThreadId, before: int, now: int, d: int, g': Ledger,
                    s': E.State)
    requires u in s.threads && CallFenced(g, s, u) && CallFits(g, s, u) && CallTimes(g, s, u, before) && before <= now
    requires PassMoves(g, g', s, s', t, now, d) && KillsGrow(g, g', now)
    requires forall key :: KillsFit(g', s', key, now, d)
    requires u in s'.threads && E.InAllow(s'.threads[u]) && !FirstLookup(s'.threads[u]) ==>
               && E.InAllow(s.threads[u]) && !FirstLookup(s.threads[u])
               && s'.threads[u].key == s.threads[u].key && s'.threads[u].stamp == s.threads[u].stamp
    requires u in g.base ==> u in g'.base && g'.base[u] == g.base[u]
    ensures u in s'.threads && CallFenced(g', s', u)
  {
    var th := s'.threads[u];
    if E.InAllow(th) && !FirstLookup(th) {
      assert KillsFit(g', s', th.key, now, d);
      FenceKept(s, s', g, g', KillsOf(g, th.key), KillsOf(g', th.key), th.stamp, g.base[u], t, th.key, now, d);
    }
  }

  /** The call that looks up for the first time. */
  lemma FirstFenced(g: Ledger, s: E.State, t: E.ThreadId, before: int, now: int, d: int, g': Ledger, s': E.State)
    requires E.Protocol(s) && TableOk(g, s) && t in s.threads && FirstLookup(s.threads[t])
    requires KillsFit(g, s, s.threads[t].key, before, d)
    requires |KillsOf(g, s.threads[t].key)| == Dead(s.heap, s.threads[t].key, |s.heap|)
    requires PassMoves(g, g', s, s', t, now, d) && !IsPass(s', t)
    requires E.InAllow(s'.threads[t]) ==>
               s'.threads[t].key == s.threads[t].key && s'.threads[t].stamp == s.threads[t].stamp
    requires g' == g.(base := g.base[t := Room(s, s.threads[t].key)])
    ensures t in s'.threads && CallFenced(g', s', t)
  {
    FenceBegins(g, s, s.threads[t].key, before, d, s.threads[t].stamp);
  }

  lemma FencedKept(g: Ledger, s: E.State, step: E.Step, before: int, now: int, minTTL: int, d: int, g': Ledger,
                   s': E.State)
    requires CallsOk(g, s, before) && PassesOk(g, s, before, d) && TableOk(g, s) && Fenced(g, s) && before <= now
    requires E.Enabled(s, step) && Orderly(g, s, step, now, d)
    requires s' == E.Next(s, step, now, minTTL) && g' == Note(g, s, step, now, minTTL)
    requires PassMoves(g, g', s, s', step.t, now, d) && PassesOk(g', s', now, d)
    ensures Fenced(g', s')
  {
    NoteGrows(g, s, step, now, minTTL, g');
    forall u | u in s'.threads ensures CallFenced(g', s', u) {
      if u != step.t {
        assert CallFenced(g, s, u) && CallFits(g, s, u) && CallTimes(g, s, u, before);
        OtherFenced(g, s, step.t, u, before, now, d, g', s');
      } else if step.Advance? && E.InAllow(s.threads[u]) {
        OwnFenced(g, s, u, before, now, minTTL, d, g', s');
      } else {
        OthersMove(s, step, now, minTTL, s');
      }
    }
  }

  lemma OwnFenced(g: Ledger, s: E.State, t: E.ThreadId, before: int, now: int, minTTL: int, d: int, g': Ledger,
                  s': E.State)
    requires CallsOk(g, s, before) && PassesOk(g, s, before, d) && TableOk(g, s) && Fenced(g, s) && before <= now
    requires E.Enabled(s, E.Advance(t)) && E.InAllow(s.threads[t])
    requires s' == E.AllowStep(s, t, now) && g' == Note(g, s, E.Advance(t), now, minTTL)
    requires PassMoves(g, g', s, s', t, now, d) && PassesOk(g', s', now, d)
    ensures t in s'.threads && CallFenced(g', s', t)
  {
    AllowMoves(s, t, now, s');
    assert CallFenced(g, s, t) && CallFits(g, s, t) && CallTimes(g, s, t, before);
    if FirstLookup(s.threads[t]) {
      assert KillsFit(g, s, s.threads[t].key, before, d);
      FirstFenced(g, s, t, before, now, d, g', s');
    } else {
      OtherFenced(g, s, t, t, before, now, d, g', s');
    }
  }

  // ---------------------------------------------------------------- giving up on the table

  /** A call in its last attempt that finds its entry dead has seen eight entries of its key die. */
  lemma LastAttempt(g: Ledger, s: E.State, t: E.ThreadId, now: int)
    requires CallsOk(g, s, now) && t in s.threads
    requires s.threads[t].Discard? && s.threads[t].attempt == E.MAX_RETRIES
    ensures t in g.base && |KillsOf(g, s.threads[t].key)| >= g.base[t] + E.MAX_RETRIES
  {
    assert CallFits(g, s, t) && E.ThreadFits(s.heap, s.threads[t]);
    DeadBehind(s, s.threads[t].key, s.threads[t].e);
  }

  /** Eight passes in a row take seven times the distance between them. */
  lemma EightTakeLong(kills: seq<Kill>, d: int, i: nat)
    requires Apart(kills, d) && i + 7 < |kills|
    ensures kills[i + 7].started >= kills[i].started + 7 * (d + 1)
  {
    assert kills[i].started + d < kills[i + 1].started && kills[i + 1].started + d < kills[i + 2].started;
    assert kills[i + 2].started + d < kills[i + 3].started && kills[i + 3].started + d < kills[i + 4].started;
    assert kills[i + 4].started + d < kills[i + 5].started && kills[i + 5].started + d < kills[i + 6].started;
    assert kills[i + 6].started + d < kills[i + 7].started;
  }

  /** The pass that killed the second entry a call found began after the call read the clock. */
  lemma SecondPassIsLater(g: Ledger, s: E.State, kills: seq<Kill>, stamp: int, base: nat, key: string, now: int, d: int)
    requires kills == KillsOf(g, key) && KillsFit(g, s, key, now, d) && d >= 0
    requires Fence(s, kills, stamp, base) && 1 <= base < |kills|
    ensures kills[base].started >= stamp
  {
    assert KillFits(g, s, key, kills[base], now);
    assert IsPass(s, kills[base].pass);
    assert kills[base - 1].started + d < kills[base].started;
  }

  /** With orderly passes a call gets to the end of its attempts only after seven times the least
      distance between their starts. */
  lemma LastAttemptIsLate(g: Ledger, s: E.State, t: E.ThreadId, now: int, d: int)
    requires CallsOk(g, s, now) && PassesOk(g, s, now, d) && Fenced(g, s) && t in s.threads
    requires s.threads[t].Discard? && s.threads[t].attempt == E.MAX_RETRIES
    ensures now >= s.threads[t].stamp + 7 * (d + 1)
  {
    LastAttempt(g, s, t, now);
    var key, base := s.threads[t].key, g.base[t];
    var kills := KillsOf(g, key);
    assert KillsFit(g, s, key, now, d) && CallFenced(g, s, t) && CallFits(g, s, t);
    SecondPassIsLater(g, s, kills, s.threads[t].stamp, base, key, now, d);
    EightTakeLong(kills, d, base);
    assert KillFits(g, s, key, kills[base + 7], now);
  }

  ghost predicate NoneDetached(s: E.State) {
    forall t :: t in s.threads ==> !s.threads[t].Detach? && !(s.threads[t].Returned? && s.threads[t].detached)
  }

  /** One more step: while calls keep within the lag, nobody gives up on the table. */
  lemma NoneDetachedKept(g: Ledger, s: E.State, step: E.Step, before: int, now: int, minTTL: int, p: Policy, lag: int,
                         d: int, s': E.State)
    requires CallsOk(g, s, before) && PassesOk(g, s, before, d) && Fenced(g, s) && NoneDetached(s)
    requires before <= now && lag < 7 * (d + 1)
    requires E.Enabled(s, step) && E.Timely(s, step, now, p, lag) && s' == E.Next(s, step, now, minTTL)
    ensures NoneDetached(s')
  {
    if step.Advance? && E.InAllow(s.threads[step.t]) {
      AllowMoves(s, step.t, now, s');
      if s.threads[step.t].Discard? { DiscardRetries(g, s, step.t, before, now, lag, d, s'); }
    } else {
      OthersMove(s, step, now, minTTL, s');
      OthersReturnNothing(s, step, now, minTTL, s');
    }
  }

  lemma DiscardRetries(g: Ledger, s: E.State, t: E.ThreadId, before: int, now: int, lag: int, d: int, s': E.State)
    requires CallsOk(g, s, before) && PassesOk(g, s, before, d) && Fenced(g, s) && before <= now && lag < 7 * (d + 1)
    requires E.Enabled(s, E.Advance(t)) && s.threads[t].Discard? && now <= s.threads[t].stamp + lag
    requires s' == E.AllowStep(s, t, now)
    ensures t in s'.threads && s'.threads[t].Lookup?
  {
    assert CallFits(g, s, t);
    if s.threads[t].attempt == E.MAX_RETRIES { LastAttemptIsLate(g, s, t, before, d); }
  }

  lemma OthersReturnNothing(s: E.State, step: E.Step, now: int, minTTL: int, s': E.State)
    requires E.Enabled(s, step) && s' == E.Next(s, step, now, minTTL)
    requires !(step.Advance? && E.InAllow(s.threads[step.t]))
    ensures step.t in s'.threads
    ensures s'.threads[step.t].Returned? ==> step.t in s.threads && s'.threads[step.t] == s.threads[step.t]
  {
  }

  // ---------------------------------------------------------------- runs

  lemma RunSnoc(run: seq<E.Event>, e: E.Event, minTTL: int)
    requires E.Run(run, minTTL) && E.Enabled(E.After(run, minTTL), e.step)
    requires run != [] ==> run[|run| - 1].at <= e.at
    ensures E.Run(run + [e], minTTL) && E.After(run + [e], minTTL) == E.Next(E.After(run, minTTL), e.step, e.at, minTTL)
  {
    assert (run + [e])[..|run|] == run;
  }

  lemma TimelySnoc(run: seq<E.Event>, e: E.Event, minTTL: int, p: Policy, lag: int)
    requires E.Run(run, minTTL) && E.Run(run + [e], minTTL) && E.TimelyRun(run, minTTL, p, lag)
    requires E.Enabled(E.After(run, minTTL), e.step) && E.Timely(E.After(run, minTTL), e.step, e.at, p, lag)
    ensures E.TimelyRun(run + [e], minTTL, p, lag)
  {
    assert (run + [e])[..|run|] == run;
  }

  ghost function LedgerOf(run: seq<E.Event>, minTTL: int): Ledger
    requires E.Run(run, minTTL)
  {
    if run == [] then NOTHING
    else
      var n := |run| - 1;
      Note(LedgerOf(run[..n], minTTL), E.After(run[..n], minTTL), run[n].step, run[n].at, minTTL)
  }

  ghost predicate OrderlyRun(run: seq<E.Event>, minTTL: int, d: int)
    requires E.Run(run, minTTL)
  {
    run != [] ==>
      var n := |run| - 1;
      && OrderlyRun(run[..n], minTTL, d)
      && Orderly(LedgerOf(run[..n], minTTL), E.After(run[..n], minTTL), run[n].step, run[n].at, d)
  }

  ghost predicate NoResets(run: seq<E.Event>) {
    forall i :: 0 <= i < |run| ==> !run[i].step.CallReset?
  }

  function LastAt(run: seq<E.Event>): int {
    if run == [] then 0 else run[|run| - 1].at
  }

  lemma InitiallyOk(now: int, d: int)
    requires d >= 0
    ensures CallsOk(NOTHING, E.INITIAL, now) && PassesOk(NOTHING, E.INITIAL, now, d)
    ensures TableOk(NOTHING, E.INITIAL) && Fenced(NOTHING, E.INITIAL) && NoneDetached(E.INITIAL)
  {
  }

  lemma {:induction false} CallsInEveryRun(run: seq<E.Event>, minTTL: int)
    requires E.Run(run, minTTL) && NoResets(run)
    ensures CallsOk(LedgerOf(run, minTTL), E.After(run, minTTL), LastAt(run))
  {
    if run == [] {
      InitiallyOk(0, 0);
    } else {
      var n := |run| - 1;
      var before := if n == 0 then run[n].at else LastAt(run[..n]);
      CallsInEveryRun(run[..n], minTTL);
      if n == 0 { InitiallyOk(before, 0); }
      CallsKept(LedgerOf(run[..n], minTTL), E.After(run[..n], minTTL), run[n].step, before, run[n].at, minTTL,
                LedgerOf(run, minTTL), E.After(run, minTTL));
    }
  }

  /** A call that gives up on the table has seen eight entries of its key die, one after the other, since
      it began, in every run without a Reset. */
  lemma EightEvictions(run: seq<E.Event>, minTTL: int, t: E.ThreadId)
    requires E.Run(run, minTTL) && NoResets(run)
    requires var s := E.After(run, minTTL); t in s.threads && s.threads[t].Detach?
    ensures var th := E.After(run, minTTL).threads[t];
            var kills := KillsOf(LedgerOf(run, minTTL), th.key);
            && |kills| >= 8
            && forall i :: |kills| - 8 <= i < |kills| ==> th.stamp <= kills[i].at <= LastAt(run)
  {
    CallsInEveryRun(run, minTTL);
    var g, s := LedgerOf(run, minTTL), E.After(run, minTTL);
    assert CallFits(g, s, t) && CallTimes(g, s, t, LastAt(run));
    assert KilledBy(KillsOf(g, s.threads[t].key), LastAt(run));
  }

  lemma {:induction false} PassesInEveryRun(run: seq<E.Event>, minTTL: int, d: int)
    requires E.Run(run, minTTL) && OrderlyRun(run, minTTL, d) && 0 <= d
    ensures CallsOk(LedgerOf(run, minTTL), E.After(run, minTTL), LastAt(run))
    ensures PassesOk(LedgerOf(run, minTTL), E.After(run, minTTL), LastAt(run), d)
    ensures TableOk(LedgerOf(run, minTTL), E.After(run, minTTL))
    ensures Fenced(LedgerOf(run, minTTL), E.After(run, minTTL))
  {
    if run == [] {
      InitiallyOk(0, d);
    } else {
      var n := |run| - 1;
      var before := if n == 0 then run[n].at else LastAt(run[..n]);
      PassesInEveryRun(run[..n], minTTL, d);
      if n == 0 { InitiallyOk(before, d); }
      StepOrderly(LedgerOf(run[..n], minTTL), E.After(run[..n], minTTL), run[n].step, before, run[n].at, minTTL, d,
                  LedgerOf(run, minTTL), E.After(run, minTTL));
    }
  }

  /** One orderly step. */
  lemma StepOrderly(g: Ledger, s: E.State, step: E.Step, before: int, now: int, minTTL: int, d: int, g': Ledger,
                    s': E.State)
    requires CallsOk(g, s, before) && PassesOk(g, s, before, d) && TableOk(g, s) && Fenced(g, s) && before <= now
    requires E.Enabled(s, step) && Orderly(g, s, step, now, d)
    requires s' == E.Next(s, step, now, minTTL) && g' == Note(g, s, step, now, minTTL)
    ensures CallsOk(g', s', now) && PassesOk(g', s', now, d) && TableOk(g', s') && Fenced(g', s')
  {
    CallsKept(g, s, step, before, now, minTTL, g', s');
    PassesKept(g, s, step, before, now, minTTL, d, g', s');
    StepMovesPass(g, s, step, now, minTTL, d, g', s');
    TableKept(g, s, step, now, minTTL, d, g', s');
    FencedKept(g, s, step, before, now, minTTL, d, g', s');
  }

  lemma {:induction false} NoneDetachedInRun(run: seq<E.Event>, minTTL: int, p: Policy, lag: int, d: int)
    requires E.Run(run, minTTL) && E.TimelyRun(run, minTTL, p, lag) && OrderlyRun(run, minTTL, d)
    requires 0 <= d && lag < 7 * (d + 1)
    ensures NoneDetached(E.After(run, minTTL))
  {
    if run != [] {
      var n := |run| - 1;
      var before := if n == 0 then run[n].at else LastAt(run[..n]);
      NoneDetachedInRun(run[..n], minTTL, p, lag, d);
      if n == 0 { InitiallyOk(before, d); } else { PassesInEveryRun(run[..n], minTTL, d); }
      NoneDetachedKept(LedgerOf(run[..n], minTTL), E.After(run[..n], minTTL), run[n].step, before, run[n].at, minTTL, p,
                       lag, d, E.After(run, minTTL));
    }
  }

  /** An orderly janitor never pushes a timely call off the table: if its passes do not overlap, start
      more than `d` apart and meet a key at most once, and calls take less than seven times the least
      distance, then no call ever decides on a detached entry. */
  lemma NeverDetached(run: seq<E.Event>, minTTL: int, p: Policy, lag: int, d: int, key: string, lo: int, hi: int)
    requires E.Run(run, minTTL) && E.TimelyRun(run, minTTL, p, lag) && OrderlyRun(run, minTTL, d)
    requires 0 <= d && lag < 7 * (d + 1)
    ensures E.DetachedAnswers(E.After(run, minTTL), key, lo, hi) == {}
  {
    NoneDetachedInRun(run, minTTL, p, lag, d);
  }

  /** The in-memory limiter's window, with nothing set aside. */
  lemma ExactWindowUnderLag(run: seq<E.Event>, minTTL: int, p: Policy, lag: int, d: int, key: string, a: int)
    requires E.Run(run, minTTL) && E.TimelyRun(run, minTTL, p, lag) && OrderlyRun(run, minTTL, d)
    requires p.Enforceable() && 0 <= lag <= p.window && 0 <= d && lag < 7 * (d + 1)
    ensures |E.Answers(E.After(run, minTTL), key, a, a + p.window - lag)| <= p.limit
  {
    E.WindowUnderLag(run, minTTL, p, lag, key, a);
    NeverDetached(run, minTTL, p, lag, d, key, a, a + p.window - lag);
  }
}
