/** A call of the in-memory limiter can be pushed off the table by an orderly janitor exactly when it may
    take seven times the least distance between passes (internal/limiter/memory.go). */
module Pushed {
  import opened Policies
  import M = MemoryModel
  import E = Eviction
  import J = Janitor

  /** Everything that stays the same in the run: the clock the call reads, the least distance between
      passes less one, the key. */
  datatype Plan = Plan(start: int, d: int, key: string, p: Policy, lag: int, minTTL: int) {
    ghost predicate Usable() {
      && p.Enforceable() && d >= 0 && lag >= 7 * (d + 1)
      && start > d + 1 && start - (d + 1) > minTTL
    }

    /** When pass k reads the clock; the first one before the call does. */
    function Stamp(k: nat): int {
      if k == 0 then start - (d + 1) else Stamp(k - 1) + (d + 1)
    }

    /** When attempt k of the call goes through. */
    function At(k: nat): int {
      if k == 0 then start else Stamp(k)
    }
  }

  lemma {:induction false} StampsApart(c: Plan, j: nat, k: nat)
    requires c.Usable() && j < k
    ensures c.Stamp(j) + c.d < c.Stamp(k)
  {
    if j < k - 1 { StampsApart(c, j, k - 1); }
  }

  lemma {:induction false} StampsLate(c: Plan, k: nat)
    requires c.Usable()
    ensures c.Stamp(k) >= c.start - (c.d + 1) && (k > 0 ==> c.Stamp(k) >= c.start)
  {
    if k > 1 { StampsLate(c, k - 1); }
  }

  lemma EighthStamp(c: Plan)
    ensures c.Stamp(8) == c.start + 7 * (c.d + 1)
  {
    assert c.Stamp(1) == c.start && c.Stamp(2) == c.start + (c.d + 1);
    assert c.Stamp(4) == c.Stamp(2) + 2 * (c.d + 1) && c.Stamp(6) == c.Stamp(4) + 2 * (c.d + 1);
    assert c.Stamp(8) == c.Stamp(6) + 2 * (c.d + 1);
  }

  lemma InTime(c: Plan, k: nat)
    requires c.Usable() && k <= 8
    ensures c.start <= c.At(k) <= c.start + c.lag && c.Stamp(k) <= c.At(k)
    ensures k < 8 ==> c.At(k) <= c.Stamp(k + 1)
  {
    EighthStamp(c);
    StampsLate(c, k);
    StampsLate(c, k + 1);
    if k < 8 { StampsApart(c, k, 8); }
  }

  // ---------------------------------------------------------------- reachable states

  ghost predicate Reaches(run: seq<E.Event>, c: Plan, now: int) {
    && E.Run(run, c.minTTL) && E.TimelyRun(run, c.minTTL, c.p, c.lag) && J.OrderlyRun(run, c.minTTL, c.d)
    && (run != [] ==> run[|run| - 1].at <= now)
  }

  /** A timely run with an orderly janitor leads here by `now`. */
  ghost predicate Reachable(s: E.State, g: J.Ledger, c: Plan, now: int) {
    exists run :: Reaches(run, c, now) && E.After(run, c.minTTL) == s && J.LedgerOf(run, c.minTTL) == g
  }

  lemma Take(s: E.State, g: J.Ledger, c: Plan, before: int, now: int, step: E.Step, s': E.State, g': J.Ledger)
    requires Reachable(s, g, c, before) && before <= now && E.Enabled(s, step)
    requires E.Timely(s, step, now, c.p, c.lag) && J.Orderly(g, s, step, now, c.d)
    requires s' == E.Next(s, step, now, c.minTTL) && g' == J.Note(g, s, step, now, c.minTTL)
    ensures Reachable(s', g', c, now)
  {
    var run :| Reaches(run, c, before) && E.After(run, c.minTTL) == s && J.LedgerOf(run, c.minTTL) == g;
    var e := E.Event(now, step);
    J.RunSnoc(run, e, c.minTTL);
    J.TimelySnoc(run, e, c.minTTL, c.p, c.lag);
    OrderlySnoc(run, e, c.minTTL, c.d);
    assert Reaches(run + [e], c, now);
  }

  lemma OrderlySnoc(run: seq<E.Event>, e: E.Event, minTTL: int, d: int)
    requires E.Run(run, minTTL) && E.Run(run + [e], minTTL) && J.OrderlyRun(run, minTTL, d)
    requires E.Enabled(E.After(run, minTTL), e.step)
    requires J.Orderly(J.LedgerOf(run, minTTL), E.After(run, minTTL), e.step, e.at, d)
    ensures J.OrderlyRun(run + [e], minTTL, d)
    ensures J.LedgerOf(run + [e], minTTL)
            == J.Note(J.LedgerOf(run, minTTL), E.After(run, minTTL), e.step, e.at, minTTL)
  {
    assert (run + [e])[..|run|] == run;
  }

  // ---------------------------------------------------------------- one attempt

  /** The caller is thread 0, pass k is thread k + 1; the passes before it are over. */
  ghost predicate Scene(s: E.State, c: Plan, k: nat, caller: E.Thread, pass: E.Thread) {
    && 0 in s.threads && s.threads[0] == caller
    && k + 1 in s.threads && s.threads[k + 1] == pass
    && forall u :: u in s.threads && u != 0 && u != k + 1 ==> 1 <= u <= k && s.threads[u] == E.Sweep(c.Stamp(u - 1))
  }

  lemma PassIsLatest(s: E.State, c: Plan, k: nat, caller: E.Thread, pass: E.Thread)
    requires c.Usable() && Scene(s, c, k, caller, pass) && !J.Sweeping(caller)
    requires J.Sweeping(pass) && pass.stamp == c.Stamp(k)
    ensures J.IsPass(s, k + 1) && J.Latest(s, k + 1)
  {
    forall u: nat | J.IsPass(s, u) ensures s.threads[u].stamp <= c.Stamp(k) {
      if u != k + 1 { StampsApart(c, u - 1, k); }
    }
  }

  /** Where the caller stands in attempt k. */
  function Searching(c: Plan, k: nat): E.Thread { E.Lookup(c.key, c.start, c.p, k) }

  function Found(c: Plan, k: nat): E.Thread { E.Store(c.key, c.start, c.p, k, k) }

  function Locking(c: Plan, k: nat): E.Thread { E.Lock(c.key, c.start, c.p, k, k) }

  function Dropping(c: Plan, k: nat): E.Thread { E.Discard(c.key, c.start, c.p, k, k) }

  function Onward(c: Plan, k: nat): E.Thread {
    if k < 8 then Searching(c, k + 1) else E.Detach(c.key, c.start, c.p)
  }

  /** Where pass k stands. */
  function Between(c: Plan, k: nat): E.Thread { E.Sweep(c.Stamp(k)) }

  function Meeting(c: Plan, k: nat): E.Thread { E.SweepLock(c.key, c.Stamp(k), k) }

  function Deleting(c: Plan, k: nat): E.Thread { E.SweepDelete(c.key, c.Stamp(k), k) }

  /** Pass n and those to come have not met the key. */
  ghost predicate Unmet(g: J.Ledger, c: Plan, n: nat) {
    forall u: nat :: u > n ==> c.key !in J.VisitedBy(g, u)
  }

  /** Attempt k is about to look the key up, and pass k to meet it. */
  ghost predicate Ready(s: E.State, g: J.Ledger, c: Plan, k: nat) {
    && |s.heap| == k && c.key !in s.table && Unmet(g, c, k)
    && Scene(s, c, k, Searching(c, k), Between(c, k))
  }

  /** The caller has allocated entry k. */
  ghost predicate Stored(s: E.State, c: Plan, k: nat, dead: bool, inTable: bool) {
    && |s.heap| == k + 1 && s.heap[k].key == c.key && s.heap[k].entry.dead == dead
    && (c.key in s.table <==> inTable) && (inTable ==> s.table[c.key] == k)
  }

  // The eight steps of an attempt.

  lemma LooksUp(s: E.State, c: Plan, k: nat, now: int, s': E.State)
    requires |s.heap| == k && c.key !in s.table && Scene(s, c, k, Searching(c, k), Between(c, k))
    requires s' == E.AllowStep(s, 0, now)
    ensures Scene(s', c, k, Found(c, k), Between(c, k)) && Stored(s', c, k, false, true)
    ensures s'.heap[k].entry == M.FRESH
  {
  }

  lemma IsMet(s: E.State, c: Plan, k: nat, s': E.State)
    requires Scene(s, c, k, Found(c, k), Between(c, k)) && Stored(s, c, k, false, true)
    requires s' == E.Goto(s, k + 1, Meeting(c, k))
    ensures Scene(s', c, k, Found(c, k), Meeting(c, k)) && Stored(s', c, k, false, true) && s'.heap == s.heap
  {
  }

  lemma IsKilled(s: E.State, c: Plan, k: nat, s': E.State)
    requires c.Usable() && Scene(s, c, k, Found(c, k), Meeting(c, k)) && Stored(s, c, k, false, true)
    requires s.heap[k].entry == M.FRESH && s' == E.SweepStep(s, k + 1, c.minTTL)
    ensures Scene(s', c, k, Found(c, k), Deleting(c, k)) && Stored(s', c, k, true, true)
  {
    StampsLate(c, k);
    assert M.Idle(M.FRESH, c.Stamp(k), c.minTTL);
  }

  lemma IsDeleted(s: E.State, c: Plan, k: nat, s': E.State)
    requires Scene(s, c, k, Found(c, k), Deleting(c, k)) && Stored(s, c, k, true, true)
    requires s' == E.SweepStep(s, k + 1, c.minTTL)
    ensures Scene(s', c, k, Found(c, k), Between(c, k)) && Stored(s', c, k, true, false)
  {
  }

  lemma Stores(s: E.State, c: Plan, k: nat, now: int, s': E.State)
    requires Scene(s, c, k, Found(c, k), Between(c, k)) && Stored(s, c, k, true, false)
    requires s' == E.AllowStep(s, 0, now)
    ensures Scene(s', c, k, Locking(c, k), Between(c, k)) && Stored(s', c, k, true, false)
  {
  }

  lemma FindsDead(s: E.State, c: Plan, k: nat, now: int, s': E.State)
    requires Scene(s, c, k, Locking(c, k), Between(c, k)) && Stored(s, c, k, true, false)
    requires s' == E.AllowStep(s, 0, now)
    ensures Scene(s', c, k, Dropping(c, k), Between(c, k)) && Stored(s', c, k, true, false)
  {
  }

  lemma MovesOn(s: E.State, c: Plan, k: nat, now: int, s': E.State)
    requires Scene(s, c, k, Dropping(c, k), Between(c, k)) && Stored(s, c, k, true, false)
    requires s' == E.AllowStep(s, 0, now)
    ensures Scene(s', c, k, Onward(c, k), Between(c, k)) && Stored(s', c, k, true, false)
  {
  }

  lemma PassBegins(s: E.State, c: Plan, k: nat, s': E.State)
    requires Scene(s, c, k, Onward(c, k), Between(c, k)) && k < 8
    requires s' == E.Goto(s, k + 2, Between(c, k + 1))
    ensures Scene(s', c, k + 1, Searching(c, k + 1), Between(c, k + 1))
    ensures k + 2 !in s.threads && s'.heap == s.heap && s'.table == s.table
  {
  }

  // They are timely, and orderly.

  lemma CallerMay(s: E.State, g: J.Ledger, c: Plan, k: nat, caller: E.Thread, pass: E.Thread)
    requires c.Usable() && k <= 8 && Scene(s, c, k, caller, pass)
    requires E.InAllow(caller) && caller.stamp == c.start && E.Enabled(s, E.Advance(0))
    ensures E.Timely(s, E.Advance(0), c.At(k), c.p, c.lag) && J.Orderly(g, s, E.Advance(0), c.At(k), c.d)
    ensures E.Next(s, E.Advance(0), c.At(k), c.minTTL) == E.AllowStep(s, 0, c.At(k))
    ensures J.Note(g, s, E.Advance(0), c.At(k), c.minTTL).visited == g.visited
  {
    InTime(c, k);
  }

  lemma PassMay(s: E.State, g: J.Ledger, c: Plan, k: nat, caller: E.Thread, pass: E.Thread)
    requires c.Usable() && Scene(s, c, k, caller, pass) && !J.Sweeping(caller)
    requires (pass == Meeting(c, k) || pass == Deleting(c, k)) && k < |s.heap|
    ensures E.Enabled(s, E.Advance(k + 1))
    ensures E.Timely(s, E.Advance(k + 1), c.At(k), c.p, c.lag) && J.Orderly(g, s, E.Advance(k + 1), c.At(k), c.d)
    ensures E.Next(s, E.Advance(k + 1), c.At(k), c.minTTL) == E.SweepStep(s, k + 1, c.minTTL)
    ensures J.Note(g, s, E.Advance(k + 1), c.At(k), c.minTTL).visited == g.visited
  {
    PassIsLatest(s, c, k, caller, pass);
  }

  lemma MeetMay(s: E.State, g: J.Ledger, c: Plan, k: nat, caller: E.Thread)
    requires c.Usable() && Scene(s, c, k, caller, Between(c, k)) && !J.Sweeping(caller)
    requires c.key in s.table && s.table[c.key] == k && Unmet(g, c, k)
    ensures E.Enabled(s, E.Visit(k + 1, c.key))
    ensures E.Timely(s, E.Visit(k + 1, c.key), c.At(k), c.p, c.lag)
    ensures J.Orderly(g, s, E.Visit(k + 1, c.key), c.At(k), c.d)
    ensures E.Next(s, E.Visit(k + 1, c.key), c.At(k), c.minTTL) == E.Goto(s, k + 1, Meeting(c, k))
    ensures Unmet(J.Note(g, s, E.Visit(k + 1, c.key), c.At(k), c.minTTL), c, k + 1)
  {
    PassIsLatest(s, c, k, caller, Between(c, k));
    var g' := J.Note(g, s, E.Visit(k + 1, c.key), c.At(k), c.minTTL);
    forall u: nat | u > k + 1 ensures c.key !in J.VisitedBy(g', u) {
      assert J.VisitedBy(g', u) == J.VisitedBy(g, u);
    }
  }

  lemma SameUnmet(g: J.Ledger, g': J.Ledger, c: Plan, n: nat)
    requires Unmet(g, c, n) && g'.visited == g.visited
    ensures Unmet(g', c, n)
  {
    forall u: nat | u > n ensures c.key !in J.VisitedBy(g', u) {
      assert J.VisitedBy(g', u) == J.VisitedBy(g, u);
    }
  }

  lemma PassOf(s: E.State, c: Plan, k: nat, caller: E.Thread, u: nat)
    requires Scene(s, c, k, caller, Between(c, k)) && !J.Sweeping(caller) && J.IsPass(s, u)
    ensures 1 <= u <= k + 1 && s.threads[u] == E.Sweep(c.Stamp(u - 1))
  {
  }

  lemma NextPassMay(s: E.State, g: J.Ledger, c: Plan, k: nat, caller: E.Thread)
    requires c.Usable() && k < 8 && Scene(s, c, k, caller, Between(c, k)) && !J.Sweeping(caller)
    ensures E.Enabled(s, E.CallCleanup(k + 2))
    ensures E.Timely(s, E.CallCleanup(k + 2), c.Stamp(k + 1), c.p, c.lag)
    ensures J.Orderly(g, s, E.CallCleanup(k + 2), c.Stamp(k + 1), c.d)
    ensures E.Next(s, E.CallCleanup(k + 2), c.Stamp(k + 1), c.minTTL) == E.Goto(s, k + 2, Between(c, k + 1))
    ensures J.Note(g, s, E.CallCleanup(k + 2), c.Stamp(k + 1), c.minTTL) == g
  {
    forall u: nat | J.IsPass(s, u) ensures s.threads[u].Sweep? && s.threads[u].stamp + c.d < c.Stamp(k + 1) {
      PassOf(s, c, k, caller, u);
      StampsApart(c, u - 1, k + 1);
    }
  }

  // And so they lead from one reachable state to the next.

  lemma CallerTakes(s: E.State, g: J.Ledger, c: Plan, k: nat, caller: E.Thread, pass: E.Thread, s': E.State,
                    met: nat)
    returns (g': J.Ledger)
    requires c.Usable() && k <= 8 && Scene(s, c, k, caller, pass) && Reachable(s, g, c, c.At(k)) && Unmet(g, c, met)
    requires E.InAllow(caller) && caller.stamp == c.start && E.Enabled(s, E.Advance(0))
    requires s' == E.AllowStep(s, 0, c.At(k))
    ensures Reachable(s', g', c, c.At(k)) && Unmet(g', c, met)
  {
    CallerMay(s, g, c, k, caller, pass);
    g' := J.Note(g, s, E.Advance(0), c.At(k), c.minTTL);
    SameUnmet(g, g', c, met);
    Take(s, g, c, c.At(k), c.At(k), E.Advance(0), s', g');
  }

  lemma PassTakes(s: E.State, g: J.Ledger, c: Plan, k: nat, caller: E.Thread, pass: E.Thread, s': E.State,
                  met: nat)
    returns (g': J.Ledger)
    requires c.Usable() && Scene(s, c, k, caller, pass) && !J.Sweeping(caller)
    requires Reachable(s, g, c, c.At(k)) && Unmet(g, c, met)
    requires (pass == Meeting(c, k) || pass == Deleting(c, k)) && k < |s.heap|
    requires s' == E.SweepStep(s, k + 1, c.minTTL)
    ensures Reachable(s', g', c, c.At(k)) && Unmet(g', c, met)
  {
    PassMay(s, g, c, k, caller, pass);
    g' := J.Note(g, s, E.Advance(k + 1), c.At(k), c.minTTL);
    SameUnmet(g, g', c, met);
    Take(s, g, c, c.At(k), c.At(k), E.Advance(k + 1), s', g');
  }

  lemma PassMeets(s: E.State, g: J.Ledger, c: Plan, k: nat, caller: E.Thread, s': E.State) returns (g': J.Ledger)
    requires c.Usable() && Scene(s, c, k, caller, Between(c, k)) && !J.Sweeping(caller) && Reachable(s, g, c, c.At(k))
    requires c.key in s.table && s.table[c.key] == k && Unmet(g, c, k) && s' == E.Goto(s, k + 1, Meeting(c, k))
    ensures Reachable(s', g', c, c.At(k)) && Unmet(g', c, k + 1)
  {
    MeetMay(s, g, c, k, caller);
    g' := J.Note(g, s, E.Visit(k + 1, c.key), c.At(k), c.minTTL);
    Take(s, g, c, c.At(k), c.At(k), E.Visit(k + 1, c.key), s', g');
  }

  lemma NextPassTakes(s: E.State, g: J.Ledger, c: Plan, k: nat, caller: E.Thread, s': E.State)
    requires c.Usable() && k < 8 && Scene(s, c, k, caller, Between(c, k)) && !J.Sweeping(caller)
    requires Reachable(s, g, c, c.At(k)) && s' == E.Goto(s, k + 2, Between(c, k + 1))
    ensures Reachable(s', g, c, c.At(k + 1))
  {
    InTime(c, k);
    NextPassMay(s, g, c, k, caller);
    Take(s, g, c, c.At(k), c.Stamp(k + 1), E.CallCleanup(k + 2), s', g);
  }

  /** Reachable, with both where they are said to be, entry k dead or not and in the table or not. */
  ghost predicate Node(s: E.State, g: J.Ledger, c: Plan, k: nat, caller: E.Thread, pass: E.Thread, dead: bool,
                       inTable: bool, met: nat)
  {
    && Reachable(s, g, c, c.At(k)) && Unmet(g, c, met)
    && Scene(s, c, k, caller, pass) && Stored(s, c, k, dead, inTable)
    && (!dead ==> s.heap[k].entry == M.FRESH)
  }

  lemma Allocates(s: E.State, g: J.Ledger, c: Plan, k: nat) returns (s': E.State, g': J.Ledger)
    requires c.Usable() && k <= 8 && Reachable(s, g, c, c.At(k)) && Ready(s, g, c, k)
    ensures Node(s', g', c, k, Found(c, k), Between(c, k), false, true, k)
  {
    s' := E.AllowStep(s, 0, c.At(k));
    LooksUp(s, c, k, c.At(k), s');
    g' := CallerTakes(s, g, c, k, Searching(c, k), Between(c, k), s', k);
  }

  lemma Meets(s: E.State, g: J.Ledger, c: Plan, k: nat) returns (s': E.State, g': J.Ledger)
    requires c.Usable() && Node(s, g, c, k, Found(c, k), Between(c, k), false, true, k)
    ensures Node(s', g', c, k, Found(c, k), Meeting(c, k), false, true, k + 1)
  {
    s' := E.Goto(s, k + 1, Meeting(c, k));
    IsMet(s, c, k, s');
    g' := PassMeets(s, g, c, k, Found(c, k), s');
  }

  lemma Kills(s: E.State, g: J.Ledger, c: Plan, k: nat) returns (s': E.State, g': J.Ledger)
    requires c.Usable() && Node(s, g, c, k, Found(c, k), Meeting(c, k), false, true, k + 1)
    ensures Node(s', g', c, k, Found(c, k), Deleting(c, k), true, true, k + 1)
  {
    s' := E.SweepStep(s, k + 1, c.minTTL);
    IsKilled(s, c, k, s');
    g' := PassTakes(s, g, c, k, Found(c, k), Meeting(c, k), s', k + 1);
  }

  lemma Deletes(s: E.State, g: J.Ledger, c: Plan, k: nat) returns (s': E.State, g': J.Ledger)
    requires c.Usable() && Node(s, g, c, k, Found(c, k), Deleting(c, k), true, true, k + 1)
    ensures Node(s', g', c, k, Found(c, k), Between(c, k), true, false, k + 1)
  {
    s' := E.SweepStep(s, k + 1, c.minTTL);
    IsDeleted(s, c, k, s');
    g' := PassTakes(s, g, c, k, Found(c, k), Deleting(c, k), s', k + 1);
  }

  lemma StoresLate(s: E.State, g: J.Ledger, c: Plan, k: nat) returns (s': E.State, g': J.Ledger)
    requires c.Usable() && k <= 8 && Node(s, g, c, k, Found(c, k), Between(c, k), true, false, k + 1)
    ensures Node(s', g', c, k, Locking(c, k), Between(c, k), true, false, k + 1)
  {
    s' := E.AllowStep(s, 0, c.At(k));
    Stores(s, c, k, c.At(k), s');
    g' := CallerTakes(s, g, c, k, Found(c, k), Between(c, k), s', k + 1);
  }

  lemma SeesDead(s: E.State, g: J.Ledger, c: Plan, k: nat) returns (s': E.State, g': J.Ledger)
    requires c.Usable() && k <= 8 && Node(s, g, c, k, Locking(c, k), Between(c, k), true, false, k + 1)
    ensures Node(s', g', c, k, Dropping(c, k), Between(c, k), true, false, k + 1)
  {
    s' := E.AllowStep(s, 0, c.At(k));
    FindsDead(s, c, k, c.At(k), s');
    g' := CallerTakes(s, g, c, k, Locking(c, k), Between(c, k), s', k + 1);
  }

  lemma TriesAgain(s: E.State, g: J.Ledger, c: Plan, k: nat) returns (s': E.State, g': J.Ledger)
    requires c.Usable() && k <= 8 && Node(s, g, c, k, Dropping(c, k), Between(c, k), true, false, k + 1)
    ensures Node(s', g', c, k, Onward(c, k), Between(c, k), true, false, k + 1)
  {
    s' := E.AllowStep(s, 0, c.At(k));
    MovesOn(s, c, k, c.At(k), s');
    g' := CallerTakes(s, g, c, k, Dropping(c, k), Between(c, k), s', k + 1);
  }

  lemma NextPass(s: E.State, g: J.Ledger, c: Plan, k: nat) returns (s': E.State)
    requires c.Usable() && k < 8 && Node(s, g, c, k, Onward(c, k), Between(c, k), true, false, k + 1)
    ensures Reachable(s', g, c, c.At(k + 1)) && Ready(s', g, c, k + 1)
  {
    s' := E.Goto(s, k + 2, Between(c, k + 1));
    PassBegins(s, c, k, s');
    NextPassTakes(s, g, c, k, Onward(c, k), s');
  }

  /** One attempt: the caller allocates entry k, pass k kills and deletes it before the caller gets any
      further, and the caller drops it. */
  lemma Attempt(s: E.State, g: J.Ledger, c: Plan, k: nat) returns (s7: E.State, g7: J.Ledger)
    requires c.Usable() && k <= 8 && Reachable(s, g, c, c.At(k)) && Ready(s, g, c, k)
    ensures Node(s7, g7, c, k, Onward(c, k), Between(c, k), true, false, k + 1)
  {
    var s1, g1 := Allocates(s, g, c, k);
    var s2, g2 := Meets(s1, g1, c, k);
    var s3, g3 := Kills(s2, g2, c, k);
    var s4, g4 := Deletes(s3, g3, c, k);
    var s5, g5 := StoresLate(s4, g4, c, k);
    var s6, g6 := SeesDead(s5, g5, c, k);
    s7, g7 := TriesAgain(s6, g6, c, k);
  }

  /** After k attempts the next one is ready. */
  lemma {:induction false} Attempts(c: Plan, k: nat) returns (s: E.State, g: J.Ledger)
    requires c.Usable() && k <= 8
    ensures Reachable(s, g, c, c.At(k)) && Ready(s, g, c, k)
  {
    if k == 0 {
      s, g := Beginning(c);
    } else {
      s, g := Attempts(c, k - 1);
      s, g := Attempt(s, g, c, k - 1);
      s := NextPass(s, g, c, k - 1);
    }
  }

  lemma Nothing(c: Plan)
    ensures Reachable(E.INITIAL, J.NOTHING, c, c.Stamp(0))
  {
    assert Reaches([], c, c.Stamp(0));
  }

  lemma PassOpens(c: Plan, s: E.State)
    requires s == E.Goto(E.INITIAL, 1, Between(c, 0))
    ensures Reachable(s, J.NOTHING, c, c.Stamp(0))
  {
    Nothing(c);
    Take(E.INITIAL, J.NOTHING, c, c.Stamp(0), c.Stamp(0), E.CallCleanup(1), s, J.NOTHING);
  }

  /** A pass begins, and later the call. */
  lemma Beginning(c: Plan) returns (s: E.State, g: J.Ledger)
    requires c.Usable()
    ensures Reachable(s, g, c, c.start) && Ready(s, g, c, 0)
  {
    var s1 := E.Goto(E.INITIAL, 1, Between(c, 0));
    PassOpens(c, s1);
    s, g := E.Goto(s1, 0, Searching(c, 0)), J.NOTHING;
    Take(s1, g, c, c.Stamp(0), c.start, E.CallAllow(0, c.key, c.p), s, g);
  }

  lemma AnswersAlone(s: E.State, c: Plan, s': E.State)
    requires c.Usable() && Scene(s, c, 8, Onward(c, 8), Between(c, 8)) && s' == E.AllowStep(s, 0, c.At(8))
    ensures 0 in E.DetachedAnswers(s', c.key, c.start - 1, c.start)
  {
  }

  lemma Decides(s: E.State, g: J.Ledger, c: Plan) returns (run: seq<E.Event>)
    requires c.Usable() && Node(s, g, c, 8, Onward(c, 8), Between(c, 8), true, false, 9)
    ensures Reaches(run, c, c.At(8))
    ensures E.DetachedAnswers(E.After(run, c.minTTL), c.key, c.start - 1, c.start) != {}
  {
    var s' := E.AllowStep(s, 0, c.At(8));
    AnswersAlone(s, c, s');
    var g' := CallerTakes(s, g, c, 8, Onward(c, 8), Between(c, 8), s', 9);
    run :| Reaches(run, c, c.At(8)) && E.After(run, c.minTTL) == s' && J.LedgerOf(run, c.minTTL) == g';
  }

  /** The ninth attempt fails like the others: the call decides on an entry of its own, and admits. */
  lemma PushedOff(c: Plan) returns (run: seq<E.Event>)
    requires c.Usable()
    ensures E.Run(run, c.minTTL) && E.TimelyRun(run, c.minTTL, c.p, c.lag) && J.OrderlyRun(run, c.minTTL, c.d)
    ensures E.DetachedAnswers(E.After(run, c.minTTL), c.key, c.start - 1, c.start) != {}
  {
    var s, g := Attempts(c, 8);
    s, g := Attempt(s, g, c, 8);
    run := Decides(s, g, c);
  }

  /** Exactly when an orderly janitor keeps timely calls on the table: if and only if they take less than
      seven times the least distance between its passes. */
  lemma DetachedExactlyWhen(minTTL: int, p: Policy, lag: int, d: int)
    requires p.Enforceable() && d >= 0
    ensures (forall run, key, lo, hi ::
               E.Run(run, minTTL) && E.TimelyRun(run, minTTL, p, lag) && J.OrderlyRun(run, minTTL, d) ==>
                 E.DetachedAnswers(E.After(run, minTTL), key, lo, hi) == {})
            <==> lag < 7 * (d + 1)
  {
    if lag < 7 * (d + 1) {
      forall run, key, lo, hi | E.Run(run, minTTL) && E.TimelyRun(run, minTTL, p, lag) && J.OrderlyRun(run, minTTL, d)
        ensures E.DetachedAnswers(E.After(run, minTTL), key, lo, hi) == {}
      {
        J.NeverDetached(run, minTTL, p, lag, d, key, lo, hi);
      }
    } else {
      var start := (if minTTL > 0 then minTTL else 0) + d + 2;
      var run := PushedOff(Plan(start, d, "", p, lag, minTTL));
      assert E.DetachedAnswers(E.After(run, minTTL), "", start - 1, start) != {};
    }
  }
}
