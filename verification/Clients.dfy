/** The bounded table of client keys and the global totals: internal/metrics/metrics.go, `Record`,
    `recordClient`, `enforceClientCap`, `Clients`, `Sweep` and `ResetClients`, for one goroutine at a
    time. Instants and durations are nanoseconds since the Unix epoch. */
module Clients {
  import opened Policies
  import SlidingWindow
  import Sorting

  /** The zero time of a row that has not been seen yet: the first of January of year 1. */
  const ZERO_TIME: int := -62_135_596_800 * SECOND

  /** How far above its cap the table may grow before a pass trims it. */
  const SLACK := 64

  datatype Event = Event(key: string, kind: string, allowed: bool, status: int, limit: int, remaining: int,
                         resetAt: int, backend: string, latency: int)

  datatype Row = Row(kind: string, requests: nat, allowed: nat, blocked: nat, limit: int, remaining: int,
                     resetAt: int, backend: string, lastSeen: int, latSum: nat, latCount: nat)

  type Table = map<string, Row>

  function Fresh(kind: string): Row {
    Row(kind, 0, 0, 0, 0, 0, ZERO_TIME, "", ZERO_TIME, 0, 0)
  }

  function Touch(row: Row, ev: Event, now: int): Row {
    Row(ev.kind, row.requests + 1,
        if ev.allowed then row.allowed + 1 else row.allowed,
        if ev.allowed then row.blocked else row.blocked + 1,
        ev.limit, ev.remaining, ev.resetAt, ev.backend, now,
        row.latSum + NonNegative(ev.latency), row.latCount + 1)
  }

  /** A table over its budget keeps exactly `max` rows, and drops none seen later than one it keeps;
      ties may fall either way. */
  ghost predicate Capped(t: Table, t': Table, max: nat) {
    && (forall k :: k in t' ==> k in t && t'[k] == t[k])
    && if |t| <= max + SLACK then t' == t
       else |t'| == max && forall k, l :: k in t && k !in t' && l in t' ==> t[k].lastSeen <= t[l].lastSeen
  }

  function TouchIfKept(kept: Table, ev: Event, now: int): Table {
    if ev.key in kept then kept[ev.key := Touch(kept[ev.key], ev, now)] else kept
  }

  /** recordClient. The cap pass runs before the new row has been seen; a row it drops is still
      updated, but no longer in the table. */
  ghost predicate Recorded(t: Table, ev: Event, now: int, max: nat, t': Table) {
    if ev.key in t then t' == TouchIfKept(t, ev, now)
    else exists kept: Table :: Capped(t[ev.key := Fresh(ev.kind)], kept, max) && t' == TouchIfKept(kept, ev, now)
  }

  function Swept(t: Table, cutoff: int): Table {
    map k | k in t && t[k].lastSeen >= cutoff :: t[k]
  }

  // ---------------------------------------------------------------- one record

  /** Every row has been seen. */
  ghost predicate Seen(t: Table) {
    forall k :: k in t ==> t[k].lastSeen > ZERO_TIME
  }

  lemma SomeRowDropped(t: Table, kept: Table)
    requires forall k :: k in kept ==> k in t && kept[k] == t[k]
    requires |kept| < |t|
    ensures exists k :: k in t && k !in kept
  {
    assert |t.Keys - kept.Keys| == |t.Keys| - |kept.Keys|;
    var k :| k in t.Keys - kept.Keys;
  }

  lemma OneMoreRow(t: Table, ev: Event)
    requires ev.key !in t
    ensures |t[ev.key := Fresh(ev.kind)]| == |t| + 1
  {
    assert t[ev.key := Fresh(ev.kind)].Keys == t.Keys + {ev.key};
  }

  /** The new row is the least recently seen of all, so a pass that drops anything drops it. */
  lemma NewcomerGoesFirst(t: Table, ev: Event, max: nat, kept: Table)
    requires Seen(t) && ev.key !in t && Capped(t[ev.key := Fresh(ev.kind)], kept, max) && |t| + 1 > max + SLACK
    ensures ev.key !in kept && |kept| == max
  {
    var t0 := t[ev.key := Fresh(ev.kind)];
    OneMoreRow(t, ev);
    SomeRowDropped(t0, kept);
    var k :| k in t0 && k !in kept;
    assert forall l :: l in kept ==> t0[k].lastSeen <= kept[l].lastSeen;
  }

  /** A pass over budget, told of the old rows alone. */
  ghost predicate Trimmed(t: Table, t': Table, max: nat) {
    && |t'| == max
    && (forall k :: k in t' ==> k in t && t'[k] == t[k])
    && (forall k, l :: k in t && k !in t' && l in t' ==> t[k].lastSeen <= t[l].lastSeen)
  }

  lemma PassKeepsOld(t: Table, ev: Event, max: nat, kept: Table)
    requires ev.key !in t && ev.key !in kept && Capped(t[ev.key := Fresh(ev.kind)], kept, max)
    requires |t[ev.key := Fresh(ev.kind)]| > max + SLACK
    ensures Trimmed(t, kept, max)
  {
    var t0 := t[ev.key := Fresh(ev.kind)];
    forall k, l | k in t && k !in kept && l in kept ensures t[k].lastSeen <= t[l].lastSeen {
      assert t0[k].lastSeen <= t0[l].lastSeen;
    }
  }

  /** What recording a request does to the table, whatever it held. A key already there, or one that
      fits, has its row updated. A new key that would take the table over its budget triggers a pass
      that leaves exactly `max` of the old rows, none dropped having been seen later than one kept;
      the new key never gets a row. */
  lemma RecordOutcome(t: Table, ev: Event, now: int, max: nat, t': Table)
    requires Seen(t) && Recorded(t, ev, now, max, t')
    ensures if ev.key in t || |t| + 1 <= max + 64
            then t' == t[ev.key := Touch(if ev.key in t then t[ev.key] else Fresh(ev.kind), ev, now)]
            else Trimmed(t, t', max) && ev.key !in t'
  {
    if ev.key !in t {
      var kept: Table :| Capped(t[ev.key := Fresh(ev.kind)], kept, max) && t' == TouchIfKept(kept, ev, now);
      OneMoreRow(t, ev);
      if |t| + 1 > max + SLACK {
        NewcomerGoesFirst(t, ev, max, kept);
        PassKeepsOld(t, ev, max, kept);
      }
    }
  }

  // ---------------------------------------------------------------- runs

  datatype Op =
    | Record(ev: Event, now: int)
    | Sweep(cutoff: int)
    | Reset

  ghost predicate Does(t: Table, op: Op, max: nat, t': Table) {
    match op
    case Record(ev, now) => now > ZERO_TIME && if ev.key == "" then t' == t else Recorded(t, ev, now, max, t')
    case Sweep(cutoff) => t' == Swept(t, cutoff)
    case Reset => t' == map[]
  }

  ghost predicate DoesAt(ops: seq<Op>, tables: seq<Table>, max: nat, i: nat)
    requires |tables| == |ops| + 1 && i < |ops|
  {
    Does(tables[i], ops[i], max, tables[i + 1])
  }

  /** tables[i] is the table before operation number i. */
  ghost predicate Run(ops: seq<Op>, tables: seq<Table>, max: nat) {
    && |tables| == |ops| + 1 && tables[0] == map[]
    && forall i :: 0 <= i < |ops| ==> DoesAt(ops, tables, max, i)
  }

  lemma RunStep(ops: seq<Op>, tables: seq<Table>, max: nat, i: nat)
    requires Run(ops, tables, max) && i < |ops|
    ensures Does(tables[i], ops[i], max, tables[i + 1])
  {
    assert DoesAt(ops, tables, max, i);
  }

  /** How many requests of a key are recorded by operations since..until, and how many of them with a
      given verdict. */
  function Requests(ops: seq<Op>, since: nat, until: nat, key: string): nat
    requires since <= until <= |ops|
  {
    if since == until then 0
    else Requests(ops, since, until - 1, key) + if ops[until - 1].Record? && ops[until - 1].ev.key == key then 1 else 0
  }

  function Verdicts(ops: seq<Op>, since: nat, until: nat, key: string, allowed: bool): nat
    requires since <= until <= |ops|
  {
    if since == until then 0
    else Verdicts(ops, since, until - 1, key, allowed)
         + if ops[until - 1].Record? && ops[until - 1].ev.key == key && ops[until - 1].ev.allowed == allowed then 1
           else 0
  }

  /** The sum of the latencies of a key's requests. */
  function Latency(ops: seq<Op>, since: nat, until: nat, key: string): nat
    requires since <= until <= |ops|
  {
    if since == until then 0
    else Latency(ops, since, until - 1, key)
         + if ops[until - 1].Record? && ops[until - 1].ev.key == key && ops[until - 1].ev.latency > 0
           then ops[until - 1].ev.latency else 0
  }

  /** The operation that gave a key the row it now has: the row has been there ever since, and was not
      there before. */
  function Born(tables: seq<Table>, n: nat, key: string): (since: nat)
    requires n < |tables| && tables[0] == map[] && key in tables[n]
    ensures since < n && key !in tables[since]
    ensures forall i :: since < i <= n ==> key in tables[i]
  {
    if key in tables[n - 1] then Born(tables, n - 1, key) else n - 1
  }

  /** The last record of a key among operations since..until. */
  function LastRecord(ops: seq<Op>, since: nat, until: nat, key: string): (i: nat)
    requires since < until <= |ops| && ops[since].Record? && ops[since].ev.key == key
    ensures since <= i < until && ops[i].Record? && ops[i].ev.key == key
    ensures forall j :: i < j < until ==> !(ops[j].Record? && ops[j].ev.key == key)
  {
    if ops[until - 1].Record? && ops[until - 1].ev.key == key then until - 1
    else LastRecord(ops, since, until - 1, key)
  }

  /** A row counts exactly the requests of its key recorded by operations since..until, and holds what
      the last of them said. */
  ghost predicate CountsSince(ops: seq<Op>, since: nat, until: nat, key: string, row: Row)
    requires since < until <= |ops| && ops[since].Record? && ops[since].ev.key == key
  {
    && row.requests == row.latCount == Requests(ops, since, until, key)
    && row.allowed == Verdicts(ops, since, until, key, true)
    && row.blocked == Verdicts(ops, since, until, key, false)
    && row.latSum == Latency(ops, since, until, key)
    && var last := ops[LastRecord(ops, since, until, key)];
       && row.lastSeen == last.now > ZERO_TIME && row.kind == last.ev.kind && row.backend == last.ev.backend
       && row.limit == last.ev.limit && row.remaining == last.ev.remaining && row.resetAt == last.ev.resetAt
  }

  /** A row tells exactly what has been recorded of its key since the record that created it. */
  ghost predicate RowTells(ops: seq<Op>, tables: seq<Table>, n: nat, key: string)
    requires n <= |ops| && |tables| == |ops| + 1 && tables[0] == map[] && key in tables[n]
  {
    var since := Born(tables, n, key);
    && key != "" && ops[since].Record? && ops[since].ev.key == key
    && CountsSince(ops, since, n, key, tables[n][key])
  }

  ghost predicate TableTells(ops: seq<Op>, tables: seq<Table>, n: nat, max: nat)
    requires n <= |ops| && |tables| == |ops| + 1 && tables[0] == map[]
  {
    |tables[n]| <= max + SLACK && forall k :: k in tables[n] ==> RowTells(ops, tables, n, k)
  }

  /** A row that no request touches still tells the truth one operation later. */
  lemma UntouchedTells(ops: seq<Op>, tables: seq<Table>, n: nat, key: string)
    requires n < |ops| && |tables| == |ops| + 1 && tables[0] == map[] && key in tables[n]
    requires RowTells(ops, tables, n, key) && !(ops[n].Record? && ops[n].ev.key == key)
    requires key in tables[n + 1] && tables[n + 1][key] == tables[n][key]
    ensures RowTells(ops, tables, n + 1, key)
  {
  }

  lemma TouchedTells(ops: seq<Op>, tables: seq<Table>, n: nat, key: string)
    requires n < |ops| && |tables| == |ops| + 1 && tables[0] == map[] && key in tables[n]
    requires RowTells(ops, tables, n, key) && ops[n].Record? && ops[n].ev.key == key && ops[n].now > ZERO_TIME
    requires key in tables[n + 1] && tables[n + 1][key] == Touch(tables[n][key], ops[n].ev, ops[n].now)
    ensures RowTells(ops, tables, n + 1, key)
  {
  }

  lemma NewRowTells(ops: seq<Op>, tables: seq<Table>, n: nat, key: string)
    requires n < |ops| && |tables| == |ops| + 1 && tables[0] == map[] && key !in tables[n] && key != ""
    requires ops[n].Record? && ops[n].ev.key == key && ops[n].now > ZERO_TIME
    requires key in tables[n + 1] && tables[n + 1][key] == Touch(Fresh(ops[n].ev.kind), ops[n].ev, ops[n].now)
    ensures RowTells(ops, tables, n + 1, key)
  {
    assert Born(tables, n + 1, key) == n && LastRecord(ops, n, n + 1, key) == n;
  }

  lemma SubTable(t: Table, t': Table)
    requires forall k :: k in t' ==> k in t
    ensures |t'| <= |t|
  {
    assert t'.Keys <= t.Keys;
    SlidingWindow.SubsetSize(t'.Keys, t.Keys);
  }

  lemma RecordedRowTells(ops: seq<Op>, tables: seq<Table>, n: nat, k: string, ev: Event, now: int)
    requires n < |ops| && |tables| == |ops| + 1 && tables[0] == map[] && ops[n] == Record(ev, now)
    requires ev.key != "" && now > ZERO_TIME && k in tables[n + 1] && (k in tables[n] ==> RowTells(ops, tables, n, k))
    requires k != ev.key ==> k in tables[n] && tables[n + 1][k] == tables[n][k]
    requires k == ev.key ==> tables[n + 1][k] == Touch(if k in tables[n] then tables[n][k] else Fresh(ev.kind), ev, now)
    ensures RowTells(ops, tables, n + 1, k)
  {
    if k != ev.key {
      UntouchedTells(ops, tables, n, k);
    } else if k in tables[n] {
      TouchedTells(ops, tables, n, k);
    } else {
      NewRowTells(ops, tables, n, k);
    }
  }

  lemma RecordedSize(t: Table, key: string, row: Row)
    ensures |t[key := row]| == if key in t then |t| else |t| + 1
  {
    assert t[key := row].Keys == t.Keys + {key};
    assert key in t ==> t[key := row].Keys == t.Keys;
  }

  lemma TellsMeansSeen(ops: seq<Op>, tables: seq<Table>, n: nat, max: nat)
    requires n <= |ops| && |tables| == |ops| + 1 && tables[0] == map[] && TableTells(ops, tables, n, max)
    ensures Seen(tables[n])
  {
    var t := tables[n];
    forall k | k in t ensures t[k].lastSeen > ZERO_TIME {
      assert RowTells(ops, tables, n, k);
    }
  }

  lemma RecordTells(ops: seq<Op>, tables: seq<Table>, n: nat, m: nat, max: nat)
    requires n < |ops| && m == n + 1 && |tables| == |ops| + 1 && tables[0] == map[]
    requires ops[n].Record? && ops[n].ev.key != ""
    requires TableTells(ops, tables, n, max) && Does(tables[n], ops[n], max, tables[m])
    ensures TableTells(ops, tables, m, max)
  {
    var t, ev, now := tables[n], ops[n].ev, ops[n].now;
    TellsMeansSeen(ops, tables, n, max);
    RecordOutcome(t, ev, now, max, tables[m]);
    RecordedSize(t, ev.key, Touch(if ev.key in t then t[ev.key] else Fresh(ev.kind), ev, now));
    forall k | k in tables[m] ensures RowTells(ops, tables, m, k) {
      if k in t { assert RowTells(ops, tables, n, k); }
      RecordedRowTells(ops, tables, n, k, ev, now);
    }
  }

  lemma OtherTells(ops: seq<Op>, tables: seq<Table>, n: nat, m: nat, max: nat)
    requires n < |ops| && m == n + 1 && |tables| == |ops| + 1 && tables[0] == map[]
    requires (ops[n].Record? ==> ops[n].ev.key == "")
    requires TableTells(ops, tables, n, max) && Does(tables[n], ops[n], max, tables[m])
    ensures TableTells(ops, tables, m, max)
  {
    SubTable(tables[n], tables[m]);
    forall k | k in tables[m] ensures RowTells(ops, tables, m, k) {
      assert RowTells(ops, tables, n, k);
      UntouchedTells(ops, tables, n, k);
    }
  }

  lemma StepTells(ops: seq<Op>, tables: seq<Table>, n: nat, m: nat, max: nat)
    requires Run(ops, tables, max) && n < |ops| && m == n + 1 && TableTells(ops, tables, n, max)
    ensures TableTells(ops, tables, m, max)
  {
    RunStep(ops, tables, max, n);
    if ops[n].Record? && ops[n].ev.key != "" {
      RecordTells(ops, tables, n, m, max);
    } else {
      OtherTells(ops, tables, n, m, max);
    }
  }

  /** In every run the table holds at most `max` + 64 rows, and each row counts exactly the requests of
      its key, by verdict, since the record that created it, and holds what the last of them said. */
  lemma {:induction false} TableInEveryRun(ops: seq<Op>, tables: seq<Table>, max: nat, n: nat)
    requires Run(ops, tables, max) && n <= |ops|
    ensures TableTells(ops, tables, n, max)
  {
    if n > 0 {
      var before := n - 1;
      TableInEveryRun(ops, tables, max, before);
      StepTells(ops, tables, before, n, max);
    }
  }

  lemma {:induction false} VerdictsAddUp(ops: seq<Op>, since: nat, until: nat, key: string)
    requires since <= until <= |ops|
    ensures Verdicts(ops, since, until, key, true) + Verdicts(ops, since, until, key, false)
            == Requests(ops, since, until, key)
    decreases until
  {
    if since != until { VerdictsAddUp(ops, since, until - 1, key); }
  }

  /** In every row of every run, requests == allowed + blocked. */
  lemma RowsAddUp(ops: seq<Op>, tables: seq<Table>, max: nat, n: nat, key: string)
    requires Run(ops, tables, max) && n <= |ops| && key in tables[n]
    ensures tables[n][key].requests == tables[n][key].allowed + tables[n][key].blocked
  {
    TableInEveryRun(ops, tables, max, n);
    assert RowTells(ops, tables, n, key);
    VerdictsAddUp(ops, Born(tables, n, key), n, key);
  }

  /** In every run a sweep leaves a row alone if and only if its key's last request came at or after the
      cutoff. */
  lemma SweepInEveryRun(ops: seq<Op>, tables: seq<Table>, max: nat, n: nat, key: string)
    requires Run(ops, tables, max) && n < |ops| && ops[n].Sweep? && key in tables[n]
    ensures RowTells(ops, tables, n, key)
    ensures key in tables[n + 1]
            <==> ops[LastRecord(ops, Born(tables, n, key), n, key)].now >= ops[n].cutoff
    ensures key in tables[n + 1] ==> tables[n + 1][key] == tables[n][key]
  {
    TableInEveryRun(ops, tables, max, n);
    assert RowTells(ops, tables, n, key);
    RunStep(ops, tables, max, n);
  }

  // ---------------------------------------------------------------- the rows and the global total

  /** The requests of all rows together. */
  ghost function SumRequests(t: Table): nat {
    if t == map[] then 0
    else
      var k :| k in t;
      t[k].requests + SumRequests(t - {k})
  }

  lemma {:induction false} SumWithout(t: Table, k: string)
    requires k in t
    ensures SumRequests(t) == t[k].requests + SumRequests(t - {k})
    decreases |t|
  {
    var j :| j in t && SumRequests(t) == t[j].requests + SumRequests(t - {j});
    if j != k {
      SumWithout(t - {j}, k);
      SumWithout(t - {k}, j);
      assert t - {j} - {k} == t - {k} - {j};
    }
  }

  /** Dropping rows cannot raise the sum. */
  lemma {:induction false} SumOfFewer(t: Table, t': Table)
    requires forall k :: k in t' ==> k in t && t'[k] == t[k]
    ensures SumRequests(t') <= SumRequests(t)
    decreases |t'|
  {
    if t' != map[] {
      var k :| k in t';
      SumWithout(t', k);
      SumWithout(t, k);
      SumOfFewer(t - {k}, t' - {k});
    }
  }

  lemma SumAfterTouch(t: Table, k: string, row: Row)
    requires row.requests == (if k in t then t[k].requests else 0) + 1
    ensures SumRequests(t[k := row]) == SumRequests(t) + 1
  {
    SumWithout(t[k := row], k);
    assert t[k := row] - {k} == t - {k};
    if k in t {
      SumWithout(t, k);
    } else {
      assert t - {k} == t;
    }
  }

  /** How many requests the first n operations record: the global total. */
  function Total(ops: seq<Op>, n: nat): nat
    requires n <= |ops|
  {
    if n == 0 then 0 else Total(ops, n - 1) + if ops[n - 1].Record? then 1 else 0
  }

  lemma SumStep(t: Table, op: Op, max: nat, t': Table)
    requires Seen(t) && Does(t, op, max, t')
    ensures SumRequests(t') <= SumRequests(t) + if op.Record? then 1 else 0
  {
    if op.Record? && op.ev.key != "" {
      RecordOutcome(t, op.ev, op.now, max, t');
      if op.ev.key in t || |t| + 1 <= max + SLACK {
        SumAfterTouch(t, op.ev.key, t'[op.ev.key]);
      } else {
        SumOfFewer(t, t');
      }
    } else {
      SumOfFewer(t, t');
    }
  }

  lemma SeenInRun(ops: seq<Op>, tables: seq<Table>, max: nat, n: nat)
    requires Run(ops, tables, max) && n <= |ops|
    ensures Seen(tables[n])
  {
    TableInEveryRun(ops, tables, max, n);
    TellsMeansSeen(ops, tables, n, max);
  }

  /** In every run the rows together account for at most the global total. */
  lemma {:induction false} SumAtMostTotal(ops: seq<Op>, tables: seq<Table>, max: nat, n: nat)
    requires Run(ops, tables, max) && n <= |ops|
    ensures SumRequests(tables[n]) <= Total(ops, n)
  {
    if n > 0 {
      SumAtMostTotal(ops, tables, max, n - 1);
      SeenInRun(ops, tables, max, n - 1);
      RunStep(ops, tables, max, n - 1);
      SumStep(tables[n - 1], ops[n - 1], max, tables[n]);
    }
  }

  // ---------------------------------------------------------------- the listing

  /** One line of the listing; the average latency, a floating-point number, is not part of it. */
  datatype View = View(key: string, kind: string, requests: nat, allowed: nat, blocked: nat, limit: int,
                       remaining: int, resetInMs: int, backend: string, lastSeenMs: int, idleMs: int)

  /** Duration.Milliseconds, which truncates towards zero. */
  function WholeMs(d: int): int {
    if d >= 0 then d / MILLISECOND else -(-d / MILLISECOND)
  }

  function ViewOf(key: string, row: Row, now: int): View {
    View(key, row.kind, row.requests, row.allowed, row.blocked, row.limit, row.remaining,
         if row.resetAt - now > 0 then WholeMs(row.resetAt - now) else 0,
         row.backend, row.lastSeen / MILLISECOND, WholeMs(now - row.lastSeen))
  }

  /** The order of strings: by the first character that differs. */
  predicate KeyBefore(a: string, b: string) {
    if b == "" then false
    else if a == "" then true
    else if a[0] != b[0] then a[0] < b[0]
    else KeyBefore(a[1..], b[1..])
  }

  /** Busiest first, then by key. */
  predicate Before(a: View, b: View) {
    if a.requests != b.requests then a.requests > b.requests else KeyBefore(a.key, b.key)
  }

  lemma {:induction false} KeyOrderAsymmetric(a: string, b: string)
    ensures KeyBefore(a, b) ==> !KeyBefore(b, a)
  {
    if a != "" && b != "" { KeyOrderAsymmetric(a[1..], b[1..]); }
  }

  lemma {:induction false} KeyOrderTotal(a: string, b: string)
    ensures KeyBefore(a, b) || a == b || KeyBefore(b, a)
  {
    if a != "" && b != "" && a[0] == b[0] {
      KeyOrderTotal(a[1..], b[1..]);
      assert a == [a[0]] + a[1..] && b == [b[0]] + b[1..];
    }
  }

  lemma {:induction false} KeyOrderTransitive(a: string, b: string, c: string)
    requires !KeyBefore(b, a) && !KeyBefore(c, b)
    ensures !KeyBefore(c, a)
  {
    if a != "" && b != "" && c != "" && a[0] == b[0] == c[0] { KeyOrderTransitive(a[1..], b[1..], c[1..]); }
  }

  lemma BeforeSorts()
    ensures Sorting.StrictWeak(Before)
  {
    forall a, b | Before(a, b) ensures !Before(b, a) {
      KeyOrderAsymmetric(a.key, b.key);
    }
    forall a, b, c | !Before(b, a) && !Before(c, b) ensures !Before(c, a) {
      if a.requests == b.requests == c.requests { KeyOrderTransitive(a.key, b.key, c.key); }
    }
  }

  ghost predicate Listed(rows: seq<View>, k: string) {
    exists i :: 0 <= i < |rows| && rows[i].key == k
  }

  ghost predicate AllBefore(rows: seq<View>, v: View) {
    forall i :: 0 <= i < |rows| ==> Before(rows[i], v)
  }

  /** The lines are the first of the table, in strict order: every row left out comes after all of
      them. */
  ghost predicate TopOf(rows: seq<View>, t: Table, now: int) {
    && (forall i :: 0 <= i < |rows| ==> rows[i].key in t && rows[i] == ViewOf(rows[i].key, t[rows[i].key], now))
    && (forall i, j :: 0 <= i < j < |rows| ==> Before(rows[i], rows[j]))
    && (forall k :: k in t ==> Listed(rows, k) || AllBefore(rows, ViewOf(k, t[k], now)))
  }

  lemma BeforeBoth(a: View, b: View)
    ensures !(Before(a, b) && Before(b, a))
  {
    KeyOrderAsymmetric(a.key, b.key);
  }

  ghost predicate SameFirst(rows: seq<View>, rows': seq<View>, n: nat)
    requires n <= |rows| && n <= |rows'|
  {
    forall j :: 0 <= j < n ==> rows[j] == rows'[j]
  }

  /** Row number i of one listing is row number i of the other. */
  lemma {:induction false} SameRow(rows: seq<View>, rows': seq<View>, t: Table, now: int, i: nat)
    requires TopOf(rows, t, now) && TopOf(rows', t, now) && i < |rows| && i < |rows'|
    requires SameFirst(rows, rows', i)
    ensures rows[i] == rows'[i]
  {
    if rows[i] != rows'[i] {
      ComesFirst(rows, rows', t, now, i);
      ComesFirst(rows', rows, t, now, i);
      BeforeBoth(rows[i], rows'[i]);
    }
  }

  lemma ComesFirst(rows: seq<View>, rows': seq<View>, t: Table, now: int, i: nat)
    requires TopOf(rows, t, now) && TopOf(rows', t, now) && i < |rows| && i < |rows'| && rows[i] != rows'[i]
    requires SameFirst(rows, rows', i)
    ensures Before(rows[i], rows'[i])
  {
    var k := rows'[i].key;
    if Listed(rows, k) {
      var j :| 0 <= j < |rows| && rows[j].key == k;
      assert rows[j] == rows'[i];
      if j < i { BeforeBoth(rows'[j], rows'[i]); }
    } else {
      assert AllBefore(rows, ViewOf(k, t[k], now));
    }
  }

  /** Where two listings first differ. */
  function FirstDifference(rows: seq<View>, rows': seq<View>, start: nat): (i: nat)
    requires |rows| == |rows'| && start <= |rows| && SameFirst(rows, rows', start)
    ensures i <= |rows| && SameFirst(rows, rows', i) && (i < |rows| ==> rows[i] != rows'[i])
    decreases |rows| - start
  {
    if start == |rows| || rows[start] != rows'[start] then start else FirstDifference(rows, rows', start + 1)
  }

  /** There is only one such listing of a given length. */
  lemma TopIsUnique(rows: seq<View>, rows': seq<View>, t: Table, now: int)
    requires TopOf(rows, t, now) && TopOf(rows', t, now) && |rows| == |rows'|
    ensures rows == rows'
  {
    var i := FirstDifference(rows, rows', 0);
    if i < |rows| { SameRow(rows, rows', t, now, i); }
  }

  // ---------------------------------------------------------------- what the listing tells

  /** `ms` is the duration in whole milliseconds, what is left over having been dropped. */
  predicate InMs(ms: int, d: int) {
    if d >= 0 then ms * MILLISECOND <= d < (ms + 1) * MILLISECOND
    else (ms - 1) * MILLISECOND < d <= ms * MILLISECOND
  }

  /** A line shows the row of its key. */
  ghost predicate Shows(v: View, row: Row, now: int) {
    && v.kind == row.kind && v.requests == row.requests && v.allowed == row.allowed && v.blocked == row.blocked
    && v.limit == row.limit && v.remaining == row.remaining && v.backend == row.backend
    && (if row.resetAt > now then InMs(v.resetInMs, row.resetAt - now) else v.resetInMs == 0)
    && v.lastSeenMs * MILLISECOND <= row.lastSeen < (v.lastSeenMs + 1) * MILLISECOND
    && InMs(v.idleMs, now - row.lastSeen)
  }

  lemma ViewShows(key: string, row: Row, now: int)
    ensures Shows(ViewOf(key, row, now), row, now)
  {
  }

  /** One key is a proper beginning of the other, or has the smaller of the first characters that differ. */
  ghost predicate Precedes(a: string, b: string) {
    exists n :: 0 <= n <= |a| && n < |b| && a[..n] == b[..n] && (n < |a| ==> a[n] < b[n])
  }

  lemma {:induction false} KeyOrderMeans(a: string, b: string)
    requires KeyBefore(a, b)
    ensures Precedes(a, b)
  {
    if a != "" && a[0] == b[0] {
      KeyOrderMeans(a[1..], b[1..]);
      var n :| 0 <= n <= |a[1..]| && n < |b[1..]| && a[1..][..n] == b[1..][..n]
               && (n < |a[1..]| ==> a[1..][n] < b[1..][n]);
      assert a[..n + 1] == [a[0]] + a[1..][..n] && b[..n + 1] == [b[0]] + b[1..][..n];
    } else {
      assert a[..0] == b[..0];
    }
  }

  /** More requests come first, and among equals the key that precedes. */
  ghost predicate Ahead(requests: nat, key: string, requests': nat, key': string) {
    requests >= requests' && (requests == requests' ==> Precedes(key, key'))
  }

  /** Every line shows its row, the lines are in order, and every row that is not shown comes after them. */
  ghost predicate Listing(rows: seq<View>, t: Table, now: int) {
    && (forall i :: 0 <= i < |rows| ==> rows[i].key in t && Shows(rows[i], t[rows[i].key], now))
    && (forall i, j :: 0 <= i < j < |rows| ==>
          Ahead(rows[i].requests, rows[i].key, rows[j].requests, rows[j].key))
    && (forall i, k :: 0 <= i < |rows| && k in t && !Listed(rows, k) ==>
          Ahead(rows[i].requests, rows[i].key, t[k].requests, k))
  }

  lemma BeforeMeans(a: View, b: View)
    requires Before(a, b)
    ensures Ahead(a.requests, a.key, b.requests, b.key)
  {
    if a.requests == b.requests { KeyOrderMeans(a.key, b.key); }
  }

  lemma TopIsListing(rows: seq<View>, t: Table, now: int)
    requires TopOf(rows, t, now)
    ensures Listing(rows, t, now)
  {
    forall i | 0 <= i < |rows| ensures rows[i].key in t && Shows(rows[i], t[rows[i].key], now) {
      ViewShows(rows[i].key, t[rows[i].key], now);
    }
    forall i, j | 0 <= i < j < |rows| ensures Ahead(rows[i].requests, rows[i].key, rows[j].requests, rows[j].key) {
      BeforeMeans(rows[i], rows[j]);
    }
    forall i, k | 0 <= i < |rows| && k in t && !Listed(rows, k)
      ensures Ahead(rows[i].requests, rows[i].key, t[k].requests, k)
    {
      assert AllBefore(rows, ViewOf(k, t[k], now));
      BeforeMeans(rows[i], ViewOf(k, t[k], now));
    }
  }
}
