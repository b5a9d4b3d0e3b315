/** The circuit breaker in front of Redis: internal/limiter/manager.go.

    What the mutex guards is a value, and each section under the mutex is a function on it. */
module Breaker {
  import opened Policies
  import M = MemoryModel
  import MemoryLimiter

  /** The instant the circuit stays open until; the zero time means closed. */
  datatype OpenUntil = Closed | Until(at: int)

  datatype Circuit = Circuit(failures: nat, openUntil: OpenUntil, lastErr: string) {
    predicate Open() {
      openUntil.Until?
    }
  }

  const WORKING := Circuit(0, Closed, "")

  datatype Config = Config(timeout: int, threshold: int, cooldown: int, probeInterval: int, policy: Policy) {

    predicate Usable() {
      timeout > 0 && threshold >= 1 && cooldown > 0 && probeInterval > 0
    }

    /** Settings that make no sense are replaced, the others kept; the initial policy is clamped. */
    function WithDefaults(): (c: Config)
      ensures c.Usable() && c.policy.Enforceable()
      ensures Usable() && policy.Enforceable() ==> c == this
      ensures c.timeout == timeout || (timeout <= 0 && c.timeout == 200 * MILLISECOND)
      ensures c.threshold == threshold || (threshold < 1 && c.threshold == 3)
      ensures c.cooldown == cooldown || (cooldown <= 0 && c.cooldown == 5 * SECOND)
      ensures c.probeInterval == probeInterval || (probeInterval <= 0 && c.probeInterval == 2 * SECOND)
      ensures c.policy == policy.Normalize()
    {
      Config(if timeout <= 0 then 200 * MILLISECOND else timeout, if threshold < 1 then 3 else threshold,
             if cooldown <= 0 then 5 * SECOND else cooldown, if probeInterval <= 0 then 2 * SECOND else probeInterval,
             policy.Normalize())
    }
  }

  // ---------------------------------------------------------------- sections under the mutex

  /** May this request go to Redis? Once the cooldown is over one may, and the window is re-armed. */
  function Asked(c: Circuit, now: int, cfg: Config): (Circuit, bool) {
    match c.openUntil
    case Closed => (c, true)
    case Until(at) => if now > at then (c.(openUntil := Until(now + cfg.cooldown)), true) else (c, false)
  }

  function AfterFailure(c: Circuit, err: string, now: int, cfg: Config): Circuit {
    var failures := c.failures + 1;
    var tripped := failures >= cfg.threshold && c.openUntil == Closed;
    Circuit(failures, if tripped then Until(now + cfg.cooldown) else c.openUntil, err)
  }

  function AfterSuccess(c: Circuit): Circuit {
    Circuit(0, Closed, if c.failures > 0 || c.Open() then "" else c.lastErr)
  }

  function PingAnswered(c: Circuit): Circuit {
    Circuit(0, Closed, if c.Open() then "" else c.lastErr)
  }

  function PingFailed(c: Circuit, err: string): Circuit {
    c.(lastErr := err)
  }

  /** What happens to the circuit: requests asking and reporting, and background pings. */
  datatype Event =
    | Try(now: int)
    | Failure(err: string, now: int)
    | Success
    | Cancelled
    | PingOk
    | PingError(err: string)
  {
    predicate Recovery() {
      Success? || PingOk?
    }
  }

  function Apply(c: Circuit, e: Event, cfg: Config): Circuit {
    match e
    case Try(now) => Asked(c, now, cfg).0
    case Failure(err, now) => AfterFailure(c, err, now, cfg)
    case Success => AfterSuccess(c)
    case Cancelled => c
    case PingOk => PingAnswered(c)
    case PingError(err) => PingFailed(c, err)
  }

  function Run(c: Circuit, events: seq<Event>, cfg: Config): Circuit {
    if events == [] then c else Apply(Run(c, events[..|events| - 1], cfg), events[|events| - 1], cfg)
  }

  // ---------------------------------------------------------------- the state invariant

  function Failures(events: seq<Event>): nat {
    if events == [] then 0
    else Failures(events[..|events| - 1]) + if events[|events| - 1].Failure? then 1 else 0
  }

  /** Where the events since the last success or successful ping begin. */
  function SinceRecovery(events: seq<Event>): (i: nat)
    ensures i <= |events|
    ensures i > 0 ==> events[i - 1].Recovery()
    ensures forall j :: i <= j < |events| ==> !events[j].Recovery()
  {
    if events == [] then 0
    else if events[|events| - 1].Recovery() then |events|
    else SinceRecovery(events[..|events| - 1])
  }

  /** In every run the circuit is open exactly when the failures since the last success or
      successful ping have reached the threshold, and `failures` is their number; cancelled callers
      and failed pings count for nothing. */
  lemma {:induction false} OpenAtThreshold(events: seq<Event>, cfg: Config)
    requires cfg.Usable()
    ensures var c := Run(WORKING, events, cfg);
            && c.failures == Failures(events[SinceRecovery(events)..])
            && (c.Open() <==> c.failures >= cfg.threshold)
  {
    if events != [] {
      var n := |events| - 1;
      OpenAtThreshold(events[..n], cfg);
      if !events[n].Recovery() {
        var i := SinceRecovery(events[..n]);
        assert events[i..][..n - i] == events[..n][i..];
      }
    }
  }

  // ---------------------------------------------------------------- the error on display

  /** The failures since the last success or successful ping. */
  function Outstanding(events: seq<Event>): nat {
    Failures(events[SinceRecovery(events)..])
  }

  /** Does a recovery take the last error off the display? A success does if any failure is outstanding,
      a successful ping only if they have reached the threshold. */
  predicate TakesErrorOff(events: seq<Event>, recovery: Event, cfg: Config) {
    if recovery.PingOk? then Outstanding(events) >= cfg.threshold else Outstanding(events) > 0
  }

  /** The last error reported and not taken off the display since. */
  function StandingError(events: seq<Event>, cfg: Config): string {
    if events == [] then ""
    else
      var e, earlier := events[|events| - 1], events[..|events| - 1];
      match e
      case Failure(err, _) => err
      case PingError(err) => err
      case Success => if TakesErrorOff(earlier, e, cfg) then "" else StandingError(earlier, cfg)
      case PingOk => if TakesErrorOff(earlier, e, cfg) then "" else StandingError(earlier, cfg)
      case _ => StandingError(earlier, cfg)
  }

  lemma {:induction false} LastErrInEveryRun(events: seq<Event>, cfg: Config)
    requires cfg.Usable()
    ensures Run(WORKING, events, cfg).lastErr == StandingError(events, cfg)
  {
    if events != [] {
      LastErrInEveryRun(events[..|events| - 1], cfg);
      OpenAtThreshold(events[..|events| - 1], cfg);
    }
  }

  /** In every run a recovery leaves no error on display if and only if it takes the error off or none
      was standing. */
  lemma RecoveryClearsExactlyWhen(events: seq<Event>, recovery: Event, cfg: Config)
    requires cfg.Usable() && recovery.Recovery()
    ensures Run(WORKING, events + [recovery], cfg).lastErr == ""
            <==> TakesErrorOff(events, recovery, cfg) || StandingError(events, cfg) == ""
  {
    assert (events + [recovery])[..|events|] == events;
    LastErrInEveryRun(events + [recovery], cfg);
  }

  /** A failure short of the threshold, and a ping that is answered: nothing is failing and the error is
      still on display. */
  lemma ErrorOutlivesPing(err: string, now: int, cfg: Config)
    requires cfg.Usable() && cfg.threshold > 1
    ensures Run(WORKING, [Failure(err, now), PingOk], cfg) == Circuit(0, Closed, err)
  {
    var events := [Failure(err, now), PingOk];
    assert events[..1] == [Failure(err, now)] && events[..1][..0] == [];
    assert Run(WORKING, events[..1], cfg) == Circuit(1, Closed, err);
  }

  // ---------------------------------------------------------------- load on a dead Redis

  ghost predicate NoRecovery(events: seq<Event>) {
    forall i :: 0 <= i < |events| ==> !events[i].Recovery()
  }

  predicate Granted(c: Circuit, e: Event, cfg: Config) {
    e.Try? && Asked(c, e.now, cfg).1
  }

  /** How many requests were let through to Redis by time t. */
  function GrantsBy(c: Circuit, events: seq<Event>, cfg: Config, t: int): nat {
    if events == [] then 0
    else
      var n := |events| - 1;
      GrantsBy(c, events[..n], cfg, t)
      + if Granted(Run(c, events[..n], cfg), events[n], cfg) && events[n].now <= t then 1 else 0
  }

  /** When the cooldown was last armed: by the last request let through, or else by the trip at t0. */
  function LastArmed(c: Circuit, events: seq<Event>, cfg: Config, t0: int): int {
    if events == [] then t0
    else
      var n := |events| - 1;
      if Granted(Run(c, events[..n], cfg), events[n], cfg) then events[n].now else LastArmed(c, events[..n], cfg, t0)
  }

  lemma {:induction false} StaysOpen(c: Circuit, events: seq<Event>, cfg: Config, t0: int)
    requires cfg.Usable() && c.openUntil == Until(t0 + cfg.cooldown) && NoRecovery(events)
    ensures Run(c, events, cfg).openUntil == Until(LastArmed(c, events, cfg, t0) + cfg.cooldown)
    ensures LastArmed(c, events, cfg, t0) >= t0
  {
    if events != [] {
      StaysOpen(c, events[..|events| - 1], cfg, t0);
    }
  }

  /** Requests let through are more than a cooldown apart. */
  lemma {:induction false} GrantsAreSpaced(c: Circuit, events: seq<Event>, cfg: Config, t0: int, t: int)
    requires cfg.Usable() && c.openUntil == Until(t0 + cfg.cooldown) && NoRecovery(events)
    ensures var g := GrantsBy(c, events, cfg, t);
            && g * cfg.cooldown <= LastArmed(c, events, cfg, t0) - t0
            && (g > 0 ==> g * cfg.cooldown < t - t0)
  {
    if events != [] {
      var n := |events| - 1;
      GrantsAreSpaced(c, events[..n], cfg, t0, t);
      StaysOpen(c, events[..n], cfg, t0);
      var g := GrantsBy(c, events[..n], cfg, t);
      assert (g + 1) * cfg.cooldown == g * cfg.cooldown + cfg.cooldown;
    }
  }

  /** The breaker limits the load on a dead Redis. If a failure at t0 opens the circuit, then
      without a success or a successful ping fewer than (t - t0) / cooldown + 1 requests reach Redis
      by time t, however many callers there are and whatever they report. */
  lemma LoadOnDeadRedis(before: Circuit, err: string, t0: int, events: seq<Event>, cfg: Config, t: int)
    requires cfg.Usable() && !before.Open() && AfterFailure(before, err, t0, cfg).Open()
    requires NoRecovery(events) && t >= t0
    ensures GrantsBy(AfterFailure(before, err, t0, cfg), events, cfg, t) <= (t - t0) / cfg.cooldown
  {
    var c := AfterFailure(before, err, t0, cfg);
    GrantsAreSpaced(c, events, cfg, t0, t);
    AtMostQuotient(GrantsBy(c, events, cfg, t), t - t0, cfg.cooldown);
  }

  lemma AtMostQuotient(g: nat, d: nat, c: int)
    requires c > 0 && g * c <= d
    ensures g <= d / c
  {
    if g >= d / c + 1 {
      MulMonotone(d / c + 1, g, c);
    }
  }

  lemma MulMonotone(a: int, b: int, c: int)
    requires a <= b && c >= 0
    ensures a * c <= b * c
  {
  }

  /** It does not starve Redis of probes either: a request is turned away only if one was let
      through, or the circuit tripped, within the last cooldown. */
  lemma TurnedAwayMeansRecentProbe(before: Circuit, err: string, t0: int, events: seq<Event>, cfg: Config, now: int)
    requires cfg.Usable() && !before.Open() && AfterFailure(before, err, t0, cfg).Open() && NoRecovery(events)
    ensures var c := AfterFailure(before, err, t0, cfg);
            Granted(Run(c, events, cfg), Try(now), cfg) <==> now - LastArmed(c, events, cfg, t0) > cfg.cooldown
  {
    StaysOpen(AfterFailure(before, err, t0, cfg), events, cfg, t0);
  }

  // ---------------------------------------------------------------- the degraded flag

  type ThreadId = nat

  /** What a goroutine has just learned of Redis, and will store in the degraded flag. */
  datatype Mark = Up | Down

  function MarkOf(e: Event): Mark {
    if e.Failure? then Down else Up
  }

  /** The flag is written after the mutex is released. */
  datatype Action = Section(t: ThreadId, event: Event) | Flag(t: ThreadId)

  datatype Racing = Racing(circuit: Circuit, degraded: bool, due: map<ThreadId, Mark>)

  predicate CanAct(s: Racing, a: Action) {
    match a
    case Section(t, event) => t !in s.due
    case Flag(t) => t in s.due
  }

  function Act(s: Racing, a: Action, cfg: Config): Racing
    requires CanAct(s, a)
  {
    match a
    case Section(t, event) =>
      Racing(Apply(s.circuit, event, cfg), s.degraded,
             if event.Failure? || event.Recovery() then s.due[t := MarkOf(event)] else s.due)
    case Flag(t) =>
      Racing(s.circuit, s.due[t].Down?, s.due - {t})
  }

  ghost predicate CanRun(actions: seq<Action>, cfg: Config)
    decreases |actions|, 0
  {
    actions == [] ||
    var n := |actions| - 1;
    CanRun(actions[..n], cfg) && CanAct(RunActions(actions[..n], cfg), actions[n])
  }

  ghost function RunActions(actions: seq<Action>, cfg: Config): Racing
    requires CanRun(actions, cfg)
    decreases |actions|, 1
  {
    if actions == [] then Racing(WORKING, false, map[])
    else Act(RunActions(actions[..|actions| - 1], cfg), actions[|actions| - 1], cfg)
  }

  lemma RunSnoc(actions: seq<Action>, a: Action, cfg: Config)
    requires CanRun(actions, cfg) && CanAct(RunActions(actions, cfg), a)
    ensures CanRun(actions + [a], cfg) && RunActions(actions + [a], cfg) == Act(RunActions(actions, cfg), a, cfg)
  {
    assert (actions + [a])[..|actions|] == actions;
  }

  /** A section that reported on Redis, and so owes a write to the flag. */
  predicate Reports(a: Action) {
    a.Section? && (a.event.Failure? || a.event.Recovery())
  }

  /** The last section to report, or -1. */
  function LastReport(actions: seq<Action>): (i: int)
    ensures -1 <= i < |actions| && (i >= 0 ==> Reports(actions[i]))
  {
    if actions == [] then -1
    else if Reports(actions[|actions| - 1]) then |actions| - 1
    else LastReport(actions[..|actions| - 1])
  }

  /** The last report of a goroutine, or -1. */
  function LastReportBy(actions: seq<Action>, t: ThreadId): (i: int)
    ensures -1 <= i < |actions| && (i >= 0 ==> Reports(actions[i]) && actions[i].t == t)
  {
    if actions == [] then -1
    else if Reports(actions[|actions| - 1]) && actions[|actions| - 1].t == t then |actions| - 1
    else LastReportBy(actions[..|actions| - 1], t)
  }

  /** The last write of a goroutine to the flag, or -1. */
  function LastWriteBy(actions: seq<Action>, t: ThreadId): (i: int)
    ensures -1 <= i < |actions| && (i >= 0 ==> actions[i] == Flag(t))
  {
    if actions == [] then -1
    else if actions[|actions| - 1] == Flag(t) then |actions| - 1
    else LastWriteBy(actions[..|actions| - 1], t)
  }

  /** The last write of anyone, or -1. */
  function LastWrite(actions: seq<Action>): (i: int)
    ensures -1 <= i < |actions| && (i >= 0 ==> actions[i].Flag?)
  {
    if actions == [] then -1
    else if actions[|actions| - 1].Flag? then |actions| - 1
    else LastWrite(actions[..|actions| - 1])
  }

  /** The report that the last write was made for, or -1: the last one of the same goroutine before it. */
  function WrittenFor(actions: seq<Action>): (i: int)
    ensures -1 <= i < |actions| && (i >= 0 ==> Reports(actions[i]))
  {
    if actions == [] then -1
    else if actions[|actions| - 1].Flag? then LastReportBy(actions[..|actions| - 1], actions[|actions| - 1].t)
    else WrittenFor(actions[..|actions| - 1])
  }

  predicate SaysDown(actions: seq<Action>, i: int)
    requires i < |actions|
  {
    i >= 0 && actions[i].Section? && actions[i].event.Failure?
  }

  /** A goroutine owes a write exactly from its report to its write, and the write is for that report. */
  ghost predicate DueOk(actions: seq<Action>, due: map<ThreadId, Mark>, t: ThreadId) {
    && (t in due <==> LastReportBy(actions, t) > LastWriteBy(actions, t))
    && (t in due ==> (due[t] == Down <==> SaysDown(actions, LastReportBy(actions, t))))
  }

  /** The flag holds what the last write was made for, and the count what the last report said. */
  ghost predicate FlagsOk(actions: seq<Action>, s: Racing) {
    && (forall t :: DueOk(actions, s.due, t))
    && (s.degraded <==> SaysDown(actions, WrittenFor(actions)))
    && (s.circuit.failures > 0 <==> SaysDown(actions, LastReport(actions)))
    && (LastWrite(actions) >= 0 ==> WrittenFor(actions) >= 0)
  }

  /** One more action, told of the schedule. */
  lemma ScheduleSnoc(actions: seq<Action>, a: Action, t: ThreadId)
    ensures var all, n := actions + [a], |actions|;
            && LastReport(all) == (if Reports(a) then n else LastReport(actions))
            && LastReportBy(all, t) == (if Reports(a) && a.t == t then n else LastReportBy(actions, t))
            && LastWriteBy(all, t) == (if a == Flag(t) then n else LastWriteBy(actions, t))
            && LastWrite(all) == (if a.Flag? then n else LastWrite(actions))
            && WrittenFor(all) == if a.Flag? then LastReportBy(actions, a.t) else WrittenFor(actions)
  {
    assert (actions + [a])[..|actions|] == actions;
  }

  lemma DueStep(actions: seq<Action>, a: Action, s: Racing, cfg: Config, t: ThreadId)
    requires DueOk(actions, s.due, t) && CanAct(s, a)
    ensures DueOk(actions + [a], Act(s, a, cfg).due, t)
  {
    ScheduleSnoc(actions, a, t);
  }

  lemma FlagsStep(actions: seq<Action>, a: Action, s: Racing, cfg: Config)
    requires FlagsOk(actions, s) && CanAct(s, a)
    ensures FlagsOk(actions + [a], Act(s, a, cfg))
  {
    ScheduleSnoc(actions, a, a.t);
    assert DueOk(actions, s.due, a.t);
    forall t ensures DueOk(actions + [a], Act(s, a, cfg).due, t) {
      assert DueOk(actions, s.due, t);
      DueStep(actions, a, s, cfg, t);
    }
  }

  lemma {:induction false} FlagsInEveryRun(actions: seq<Action>, cfg: Config)
    requires CanRun(actions, cfg)
    ensures FlagsOk(actions, RunActions(actions, cfg))
  {
    if actions != [] {
      var n := |actions| - 1;
      FlagsInEveryRun(actions[..n], cfg);
      FlagsStep(actions[..n], actions[n], RunActions(actions[..n], cfg), cfg);
      assert actions[..n] + [actions[n]] == actions;
    }
  }

  /** The last write was made for a report that has been overtaken: the last report of all is later and
      says the opposite, and yet its own write came before. */
  predicate Overtaken(actions: seq<Action>) {
    var r, last := WrittenFor(actions), LastReport(actions);
    && 0 <= r < last
    && SaysDown(actions, r) != SaysDown(actions, last)
    && last < LastWriteBy(actions, actions[last].t) < LastWrite(actions)
  }

  lemma {:induction false} LastReportIsOwn(actions: seq<Action>)
    requires LastReport(actions) >= 0
    ensures LastReportBy(actions, actions[LastReport(actions)].t) == LastReport(actions)
  {
    var n := |actions| - 1;
    if !Reports(actions[n]) { LastReportIsOwn(actions[..n]); }
  }

  lemma {:induction false} NoReportIsLater(actions: seq<Action>, t: ThreadId)
    ensures LastReportBy(actions, t) <= LastReport(actions) && WrittenFor(actions) <= LastReport(actions)
  {
    if actions != [] {
      var n := |actions| - 1;
      NoReportIsLater(actions[..n], t);
      NoReportIsLater(actions[..n], actions[n].t);
    }
  }

  lemma {:induction false} LastWriteIsLast(actions: seq<Action>, t: ThreadId)
    ensures LastWriteBy(actions, t) <= LastWrite(actions)
    ensures 0 <= LastWriteBy(actions, t) == LastWrite(actions) ==>
              WrittenFor(actions) == LastReportBy(actions[..LastWrite(actions)], t)
  {
    if actions != [] {
      var n := |actions| - 1;
      LastWriteIsLast(actions[..n], t);
      if !actions[n].Flag? && LastWrite(actions) >= 0 {
        assert actions[..n][..LastWrite(actions)] == actions[..LastWrite(actions)];
      }
    }
  }

  lemma {:induction false} LastReportByPrefix(actions: seq<Action>, n: nat, t: ThreadId)
    requires LastReportBy(actions, t) < n <= |actions|
    ensures LastReportBy(actions[..n], t) == LastReportBy(actions, t)
  {
    if n < |actions| {
      LastReportByPrefix(actions[..|actions| - 1], n, t);
      assert actions[..|actions| - 1][..n] == actions[..n];
    } else {
      assert actions[..n] == actions;
    }
  }

  /** When no write is outstanding, the flag is wrong if and only if the last write has been overtaken. */
  lemma FlagWrongExactlyWhen(actions: seq<Action>, cfg: Config)
    requires CanRun(actions, cfg) && RunActions(actions, cfg).due == map[]
    ensures var s := RunActions(actions, cfg);
            (s.degraded != (s.circuit.failures > 0)) <==> Overtaken(actions)
  {
    var s := RunActions(actions, cfg);
    FlagsInEveryRun(actions, cfg);
    var last, r := LastReport(actions), WrittenFor(actions);
    NoReportIsLater(actions, 0);
    if last >= 0 {
      var t := actions[last].t;
      LastReportIsOwn(actions);
      assert DueOk(actions, s.due, t);
      LastWriteIsLast(actions, t);
      LastReportByPrefix(actions, LastWriteBy(actions, t), t);
    }
  }

  /** Every write comes after the writes for earlier reports. */
  predicate InOrder(actions: seq<Action>) {
    actions != [] ==>
      var n := |actions| - 1;
      && InOrder(actions[..n])
      && (actions[n].Flag? ==> LastReportBy(actions[..n], actions[n].t) > WrittenFor(actions[..n]))
  }

  /** In order, no report that has been written is later than the one the last write was made for. */
  lemma {:induction false} WrittenInOrder(actions: seq<Action>, t: ThreadId)
    requires InOrder(actions) && 0 <= LastReportBy(actions, t) < LastWriteBy(actions, t)
    ensures LastReportBy(actions, t) <= WrittenFor(actions)
  {
    var n := |actions| - 1;
    if actions[n] != Flag(t) { WrittenInOrder(actions[..n], t); }
  }

  /** Writes made in the order of their sections leave the flag right. */
  lemma InOrderFlagIsRight(actions: seq<Action>, cfg: Config)
    requires CanRun(actions, cfg) && RunActions(actions, cfg).due == map[] && InOrder(actions)
    ensures var s := RunActions(actions, cfg); s.degraded <==> s.circuit.failures > 0
  {
    FlagWrongExactlyWhen(actions, cfg);
    FlagsInEveryRun(actions, cfg);
    var last := LastReport(actions);
    if last >= 0 {
      var t := actions[last].t;
      LastReportIsOwn(actions);
      assert DueOk(actions, RunActions(actions, cfg).due, t);
      WrittenInOrder(actions, t);
    }
  }

  /** Two goroutines suffice to leave the flag wrong for good: a failure is counted, a success
      resets the count and clears the flag, and only then is the failure's flag written. */
  lemma FlagCanBeLeftWrong(cfg: Config)
    requires cfg.Usable()
    ensures var actions := [Section(0, Failure("timeout", 0)), Section(1, Success), Flag(1), Flag(0)];
            && CanRun(actions, cfg)
            && var s := RunActions(actions, cfg);
               s.degraded && s.circuit.failures == 0 && !s.circuit.Open() && s.due == map[]
  {
    var fail, succeed := Section(0, Failure("timeout", 0)), Section(1, Success);
    var empty: seq<Action> := [];
    RunSnoc(empty, fail, cfg);
    RunSnoc(empty + [fail], succeed, cfg);
    RunSnoc(empty + [fail] + [succeed], Flag(1), cfg);
    RunSnoc(empty + [fail] + [succeed] + [Flag(1)], Flag(0), cfg);
    assert empty + [fail] + [succeed] + [Flag(1)] + [Flag(0)] == [fail, succeed, Flag(1), Flag(0)];
  }

  /** A record that runs to its end. */
  function Record(e: Event, t: ThreadId): seq<Action> {
    if e.Failure? || e.Recovery() then [Section(t, e)] + [Flag(t)] else [Section(t, e)]
  }

  /** Records that run to the end before the next one starts. */
  function Atomically(events: seq<Event>, t: ThreadId): seq<Action> {
    if events == [] then [] else Atomically(events[..|events| - 1], t) + Record(events[|events| - 1], t)
  }

  /** What an atomic record does, with no write outstanding before or after. */
  function Recorded(s: Racing, e: Event, cfg: Config): Racing {
    Racing(Apply(s.circuit, e, cfg), if e.Failure? then true else if e.Recovery() then false else s.degraded, map[])
  }

  lemma ReportRuns(actions: seq<Action>, e: Event, t: ThreadId, cfg: Config, s: Racing)
    requires CanRun(actions, cfg) && s == RunActions(actions, cfg) && s.due == map[]
    requires e.Failure? || e.Recovery()
    ensures CanRun(actions + [Section(t, e)] + [Flag(t)], cfg)
    ensures RunActions(actions + [Section(t, e)] + [Flag(t)], cfg) == Recorded(s, e, cfg)
  {
    RunSnoc(actions, Section(t, e), cfg);
    RunSnoc(actions + [Section(t, e)], Flag(t), cfg);
    assert s.due[t := MarkOf(e)] - {t} == map[];
  }

  lemma RecordRuns(actions: seq<Action>, e: Event, t: ThreadId, cfg: Config, s: Racing, all: seq<Action>)
    requires CanRun(actions, cfg) && s == RunActions(actions, cfg) && s.due == map[]
    requires all == actions + Record(e, t)
    ensures CanRun(all, cfg) && RunActions(all, cfg) == Recorded(s, e, cfg)
  {
    if e.Failure? || e.Recovery() {
      ReportRuns(actions, e, t, cfg, s);
      assert all == actions + [Section(t, e)] + [Flag(t)];
    } else {
      RunSnoc(actions, Section(t, e), cfg);
    }
  }

  /** Nothing is outstanding, the circuit is where its events lead, and the flag tells of failures. */
  ghost predicate Settled(s: Racing, c: Circuit) {
    s.due == map[] && s.circuit == c && (s.degraded <==> c.failures > 0)
  }

  lemma SettledAfter(s: Racing, c: Circuit, e: Event, cfg: Config)
    requires Settled(s, c)
    ensures Settled(Recorded(s, e, cfg), Apply(c, e, cfg))
  {
  }

  /** When every record runs atomically, degraded holds exactly when failures are outstanding. */
  lemma {:induction false} DegradedMeansFailing(events: seq<Event>, t: ThreadId, cfg: Config)
    ensures CanRun(Atomically(events, t), cfg)
    ensures Settled(RunActions(Atomically(events, t), cfg), Run(WORKING, events, cfg))
  {
    if events != [] {
      var n := |events| - 1;
      DegradedMeansFailing(events[..n], t, cfg);
      var before := Atomically(events[..n], t);
      var s := RunActions(before, cfg);
      RecordRuns(before, events[n], t, cfg, s, Atomically(events, t));
      SettledAfter(s, Run(WORKING, events[..n], cfg), events[n], cfg);
    }
  }

  // ---------------------------------------------------------------- the manager

  /** How a call to Redis ended: with a decision, with an error, or because the caller went away. */
  datatype Outcome = Answered(decision: Decision) | Unavailable(err: string) | CallerGone

  function EventOf(o: Outcome, now: int): Event {
    match o
    case Answered(_) => Success
    case Unavailable(err) => Failure(err, now)
    case CallerGone => Cancelled
  }

  datatype Ping = Pong | NoPong(err: string)

  function PingEvent(ping: Ping): Event {
    match ping
    case Pong => PingOk
    case NoPong(err) => PingError(err)
  }

  function PingEvents(pings: seq<Ping>): seq<Event> {
    if pings == [] then [] else PingEvents(pings[..|pings| - 1]) + [PingEvent(pings[|pings| - 1])]
  }

  /** Has any of the pings been answered? */
  predicate AnyAnswered(pings: seq<Ping>) {
    exists i :: 0 <= i < |pings| && pings[i].Pong?
  }

  lemma PingEventsSnoc(pings: seq<Ping>, ping: Ping)
    ensures PingEvents(pings + [ping]) == PingEvents(pings) + [PingEvent(ping)]
    ensures AnyAnswered(pings + [ping]) <==> AnyAnswered(pings) || ping.Pong?
  {
    assert (pings + [ping])[..|pings|] == pings && (pings + [ping])[|pings|] == ping;
    if AnyAnswered(pings) {
      var i :| 0 <= i < |pings| && pings[i].Pong?;
      assert (pings + [ping])[i].Pong?;
    }
  }

  /** What the prober has done after n pings: the circuit has followed them, and the flag has survived
      if none was answered. */
  ghost predicate Probed(start: Circuit, c: Circuit, before: bool, degraded: bool, pings: seq<Ping>, n: nat,
                         cfg: Config)
  {
    && n <= |pings| && c == Run(start, PingEvents(pings[..n]), cfg)
    && (degraded <==> before && !AnyAnswered(pings[..n]))
    && c.failures == (if AnyAnswered(pings[..n]) then 0 else start.failures)
    && c.openUntil == if AnyAnswered(pings[..n]) then Closed else start.openUntil
  }

  lemma OnePing(start: Circuit, c: Circuit, before: bool, degraded: bool, pings: seq<Ping>, n: nat, cfg: Config)
    requires Probed(start, c, before, degraded, pings, n, cfg) && n < |pings|
    ensures Probed(start, Apply(c, PingEvent(pings[n]), cfg), before, degraded && !pings[n].Pong?, pings, n + 1, cfg)
  {
    PingEventsSnoc(pings[..n], pings[n]);
    assert pings[..n + 1] == pings[..n] + [pings[n]];
    var events := PingEvents(pings[..n]);
    assert (events + [PingEvent(pings[n])])[..|events|] == events;
  }

  /** What asking Redis does to the circuit and the health flag. An answer clears the failures, closes the
      circuit and takes the error off the display if there was anything to recover from. A caller who goes
      away leaves only the cooldown re-armed, if the circuit was open. A failure is counted, put on
      display, and opens a closed circuit when it brings the failures to the threshold. */
  ghost predicate Reported(c: Circuit, healthy: bool, c': Circuit, healthy': bool, outcome: Outcome, asked: int,
                           failed: int, cfg: Config)
  {
    var armed := if c.openUntil == Closed then Closed else Until(asked + cfg.cooldown);
    match outcome
    case Answered(_) =>
      && c'.failures == 0 && c'.openUntil == Closed && healthy'
      && c'.lastErr == if c.failures > 0 || c.openUntil != Closed then "" else c.lastErr
    case CallerGone =>
      c'.failures == c.failures && c'.openUntil == armed && c'.lastErr == c.lastErr && healthy' == healthy
    case Unavailable(err) =>
      && c'.failures == c.failures + 1 && c'.lastErr == err && !healthy'
      && c'.openUntil == if c'.failures >= cfg.threshold && armed == Closed then Until(failed + cfg.cooldown)
                         else armed
  }

  /** The events of a request that was let through do just that. */
  lemma ReportedIs(c: Circuit, healthy: bool, outcome: Outcome, asked: int, failed: int, cfg: Config)
    requires Granted(c, Try(asked), cfg)
    ensures c.openUntil == Closed || asked > c.openUntil.at
    ensures Reported(c, healthy, Apply(Apply(c, Try(asked), cfg), EventOf(outcome, failed), cfg),
                     if outcome.CallerGone? then healthy else outcome.Answered?, outcome, asked, failed, cfg)
  {
  }

  /** Routes decisions to Redis and falls back to memory, for one request at a time. */
  class Manager {
    const cfg: Config
    const hasPrimary: bool
    const fallback: MemoryLimiter.MemoryLimiter

    var policy: Policy
    var failures: nat
    var openUntil: OpenUntil
    var lastErr: string
    var redisHealthy: bool
    var degraded: bool
    var redisServed: nat
    var fallbackServed: nat

    constructor (hasPrimary: bool, fallback: MemoryLimiter.MemoryLimiter, cfg: Config)
      ensures State() == WORKING && !degraded && redisHealthy == hasPrimary
      ensures redisServed == fallbackServed == 0 && policy == cfg.policy.Normalize()
      ensures this.hasPrimary == hasPrimary && this.fallback == fallback && this.cfg == cfg.WithDefaults()
    {
      this.cfg := cfg.WithDefaults();
      this.hasPrimary, this.fallback := hasPrimary, fallback;
      policy := cfg.policy.Normalize();
      failures, openUntil, lastErr := 0, Closed, "";
      redisHealthy, degraded := hasPrimary, false;
      redisServed, fallbackServed := 0, 0;
    }

    ghost function State(): Circuit
      reads this
    {
      Circuit(failures, openUntil, lastErr)
    }

    method SetPolicy(p: Policy) returns (stored: Policy)
      modifies this`policy
      ensures policy == stored && stored.Enforceable() && (p.Enforceable() ==> stored == p)
    {
      stored := p.Normalize();
      policy := stored;
    }

    method TryPrimary(now: int) returns (granted: bool)
      modifies this`openUntil
      ensures (State(), granted) == Asked(old(State()), now, cfg)
      ensures granted <==> old(openUntil) == Closed || now > old(openUntil).at
      ensures openUntil == if granted && old(openUntil) != Closed then Until(now + cfg.cooldown) else old(openUntil)
    {
      if openUntil == Closed { return true; }
      if now > openUntil.at {
        openUntil := Until(now + cfg.cooldown);
        return true;
      }
      return false;
    }

    method RecordFailure(err: string, now: int) returns (announced: bool)
      modifies this`failures, this`openUntil, this`lastErr, this`redisHealthy, this`degraded
      ensures State() == AfterFailure(old(State()), err, now, cfg)
      ensures failures == old(failures) + 1 && lastErr == err
      ensures openUntil == if failures >= cfg.threshold && old(openUntil) == Closed then Until(now + cfg.cooldown)
                           else old(openUntil)
      ensures degraded && !redisHealthy
      ensures announced <==> !old(degraded) || (State().Open() && !old(State()).Open())
    {
      failures := failures + 1;
      lastErr := err;
      var tripped := false;
      if failures >= cfg.threshold && openUntil == Closed {
        openUntil := Until(now + cfg.cooldown);
        tripped := true;
      }
      redisHealthy := false;
      announced := !degraded || tripped;
      degraded := true;
    }

    method RecordSuccess() returns (announced: bool)
      modifies this`failures, this`openUntil, this`lastErr, this`redisHealthy, this`degraded
      ensures State() == AfterSuccess(old(State()))
      ensures failures == 0 && openUntil == Closed
      ensures lastErr == if old(failures) > 0 || old(openUntil) != Closed then "" else old(lastErr)
      ensures !degraded && redisHealthy
      ensures announced <==> old(degraded) && (old(State()).failures > 0 || old(State()).Open())
    {
      var recovered := failures > 0 || openUntil != Closed;
      failures := 0;
      openUntil := Closed;
      if recovered { lastErr := ""; }
      redisHealthy := true;
      announced := degraded && recovered;
      degraded := false;
    }

    /** One health check. */
    method Probe(ping: Ping)
      modifies this`failures, this`openUntil, this`lastErr, this`redisHealthy, this`degraded
      ensures State() == Apply(old(State()), PingEvent(ping), cfg)
      ensures ping.Pong? ==> failures == 0 && openUntil == Closed
      ensures ping.Pong? ==> lastErr == if old(openUntil) != Closed then "" else old(lastErr)
      ensures ping.NoPong? ==> failures == old(failures) && openUntil == old(openUntil) && lastErr == ping.err
      ensures redisHealthy == ping.Pong?
      ensures degraded <==> old(degraded) && ping.NoPong?
    {
      match ping {
        case NoPong(err) =>
          redisHealthy := false;
          lastErr := err;
        case Pong =>
          redisHealthy := true;
          var wasOpen := openUntil != Closed;
          failures := 0;
          openUntil := Closed;
          if wasOpen { lastErr := ""; }
          degraded := false;
      }
    }

    /** The background prober over a series of ticks. */
    method ProbeLoop(pings: seq<Ping>)
      modifies this`failures, this`openUntil, this`lastErr, this`redisHealthy, this`degraded
      ensures State() == Run(old(State()), PingEvents(pings), cfg)
      ensures AnyAnswered(pings) ==> failures == 0 && openUntil == Closed
      ensures !AnyAnswered(pings) ==> failures == old(failures) && openUntil == old(openUntil)
      ensures pings != [] ==> redisHealthy == pings[|pings| - 1].Pong?
      ensures degraded <==> old(degraded) && !AnyAnswered(pings)
    {
      ghost var start, before := State(), degraded;
      var i := 0;
      while i < |pings|
        invariant 0 <= i <= |pings|
        invariant Probed(start, State(), before, degraded, pings, i, cfg)
        invariant i > 0 ==> redisHealthy == pings[i - 1].Pong?
      {
        OnePing(start, State(), before, degraded, pings, i, cfg);
        Probe(pings[i]);
        i := i + 1;
      }
      assert pings[..i] == pings;
    }

    /** One decision under an explicit policy. `outcome` is what Redis does if it is asked; the three
        instants are those at which tryPrimary, recordFailure and the fallback read the clock. */
    method AllowPolicy(key: string, p: Policy, outcome: Outcome, asked: int, failed: int, local: int)
      returns (d: Decision)
      requires fallback.Valid() && this !in fallback.book.repr
      modifies this`failures, this`openUntil, this`lastErr, this`redisHealthy, this`degraded
      modifies this`redisServed, this`fallbackServed, fallback`entries, fallback`book, fallback.book.repr
      ensures fallback.Valid() && this !in fallback.book.repr
      ensures var tried := hasPrimary && (old(openUntil) == Closed || asked > old(openUntil).at);
              if tried
              then Reported(old(State()), old(redisHealthy), State(), redisHealthy, outcome, asked, failed, cfg)
              else State() == old(State()) && redisHealthy == old(redisHealthy)
      ensures var c := old(State());
              var tried := hasPrimary && Granted(c, Try(asked), cfg);
              && State() == (if !tried then c
                             else Apply(Apply(c, Try(asked), cfg), EventOf(outcome, failed), cfg))
              && degraded == (if tried && outcome.Answered? then false
                              else if tried && outcome.Unavailable? then true
                              else old(degraded))
              && if tried && outcome.Answered?
                 then d == outcome.decision && fallback.book == old(fallback.book)
                      && redisServed == old(redisServed) + 1 && fallbackServed == old(fallbackServed)
                 else (fallback.book.table, d) == M.Allow(old(fallback.book.table), key, local, p)
                      && redisServed == old(redisServed) && fallbackServed == old(fallbackServed) + 1
    {
      ghost var c := State();
      if hasPrimary {
        var granted := TryPrimary(asked);
        if granted {
          ReportedIs(c, redisHealthy, outcome, asked, failed, cfg);
          match outcome {
            case Answered(decision) =>
              var _ := RecordSuccess();
              redisServed := redisServed + 1;
              return decision;
            case CallerGone =>
            case Unavailable(err) =>
              var _ := RecordFailure(err, failed);
          }
        }
      }
      d := fallback.Allow(key, local, p);
      fallbackServed := fallbackServed + 1;
    }
  }
}
