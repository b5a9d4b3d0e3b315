/** The rolling per-second traffic series: internal/metrics/metrics.go, `recordSeries` and `Series`.

    A ring of n buckets, indexed by the second modulo n, has to agree with the counts over the whole
    history of events. */
module Series {

  /** One second of traffic. */
  datatype Bucket = Bucket(ts: int, total: nat, allowed: nat, blocked: nat, errors: nat)

  /** One completed request, by the Unix second it was recorded in. */
  datatype Sample = Sample(sec: int, allowed: bool, isError: bool)

  function Quiet(sec: int): Bucket {
    Bucket(sec, 0, 0, 0, 0)
  }

  function Bump(b: Bucket, s: Sample): Bucket {
    Bucket(b.ts, b.total + 1,
           if s.allowed then b.allowed + 1 else b.allowed,
           if s.allowed then b.blocked else b.blocked + 1,
           if s.isError then b.errors + 1 else b.errors)
  }

  /** The slot of a second; also right for seconds before 1970, as the program takes care to be. */
  function Slot(sec: int, n: nat): nat
    requires n > 0
  {
    sec % n
  }

  function Recorded(ring: seq<Bucket>, s: Sample): (r: seq<Bucket>)
    requires |ring| > 0
    ensures |r| == |ring|
  {
    var idx := Slot(s.sec, |ring|);
    ring[idx := Bump(if ring[idx].ts != s.sec then Quiet(s.sec) else ring[idx], s)]
  }

  /** What the ring shows for a second. */
  function Shown(ring: seq<Bucket>, sec: int): Bucket
    requires |ring| > 0
  {
    var b := ring[Slot(sec, |ring|)];
    if b.ts != sec then Quiet(sec) else b
  }

  // ---------------------------------------------------------------- the full history

  /** What the whole history says about a second. */
  function Tally(hist: seq<Sample>, sec: int): (b: Bucket)
    ensures b.ts == sec && b.total == b.allowed + b.blocked && b.errors <= b.total
  {
    if hist == [] then Quiet(sec)
    else
      var b := Tally(hist[..|hist| - 1], sec);
      if hist[|hist| - 1].sec == sec then Bump(b, hist[|hist| - 1]) else b
  }

  /** The newest second on record, or -1. */
  function Newest(hist: seq<Sample>): (sec: int)
    ensures sec >= -1
    ensures forall i :: 0 <= i < |hist| ==> hist[i].sec <= sec
  {
    if hist == [] then -1
    else
      var earlier := Newest(hist[..|hist| - 1]);
      if hist[|hist| - 1].sec > earlier then hist[|hist| - 1].sec else earlier
  }

  function Run(n: nat, hist: seq<Sample>): (ring: seq<Bucket>)
    requires n > 0
    ensures |ring| == n
  {
    if hist == [] then seq(n, _ => Quiet(0)) else Recorded(Run(n, hist[..|hist| - 1]), hist[|hist| - 1])
  }

  /** A slot is untouched, or holds a recorded second that belongs there. */
  ghost predicate SlotFits(ring: seq<Bucket>, idx: nat, newest: int)
    requires idx < |ring|
  {
    ring[idx] == Quiet(0) || (ring[idx].total > 0 && ring[idx].ts <= newest && Slot(ring[idx].ts, |ring|) == idx)
  }

  /** Every query from now on, at an instant not before the newest record, will be answered from
      the full history. */
  ghost predicate Agrees(ring: seq<Bucket>, hist: seq<Sample>) {
    && |ring| > 0
    && (forall idx :: 0 <= idx < |ring| ==> SlotFits(ring, idx, Newest(hist)))
    && (forall sec :: sec > Newest(hist) - |ring| ==> Shown(ring, sec) == Tally(hist, sec))
  }

  lemma {:induction false} NothingLater(hist: seq<Sample>, sec: int)
    requires sec > Newest(hist)
    ensures Tally(hist, sec) == Quiet(sec)
  {
    if hist != [] { NothingLater(hist[..|hist| - 1], sec); }
  }

  lemma TallySnoc(hist: seq<Sample>, s: Sample, sec: int)
    ensures Tally(hist + [s], sec) == if s.sec == sec then Bump(Tally(hist, sec), s) else Tally(hist, sec)
    ensures Newest(hist + [s]) == if s.sec > Newest(hist) then s.sec else Newest(hist)
  {
    assert (hist + [s])[..|hist|] == hist;
  }

  /** Two seconds in one slot are whole laps apart. */
  lemma LapsApart(a: int, b: int, n: nat)
    requires n > 0 && Slot(a, n) == Slot(b, n) && a < b
    ensures a + n <= b
  {
    assert a == a / n * n + a % n && b == b / n * n + b % n;
    if b / n >= a / n + 1 {
      assert b / n * n >= (a / n + 1) * n;
    }
  }

  lemma EmptyAgrees(n: nat)
    requires n > 0
    ensures Agrees(Run(n, []), [])
  {
  }

  /** The bucket a record overwrites still matters: it belongs to a later second that a query can
      still reach. */
  predicate Overwrites(ring: seq<Bucket>, hist: seq<Sample>, s: Sample)
    requires |ring| > 0
  {
    var ts := ring[Slot(s.sec, |ring|)].ts;
    s.sec < ts && ts > Newest(hist) - |ring|
  }

  lemma FitsAfter(ring: seq<Bucket>, hist: seq<Sample>, s: Sample)
    requires Agrees(ring, hist) && s.sec >= 0
    ensures forall idx :: 0 <= idx < |ring| ==> SlotFits(Recorded(ring, s), idx, Newest(hist + [s]))
  {
    TallySnoc(hist, s, s.sec);
    forall idx | 0 <= idx < |ring| ensures SlotFits(Recorded(ring, s), idx, Newest(hist + [s])) {
      assert SlotFits(ring, idx, Newest(hist));
    }
  }

  lemma ShownAfter(ring: seq<Bucket>, hist: seq<Sample>, s: Sample, sec: int)
    requires Agrees(ring, hist) && s.sec >= 0 && !Overwrites(ring, hist, s)
    requires sec > Newest(hist + [s]) - |ring|
    ensures Shown(Recorded(ring, s), sec) == Tally(hist + [s], sec)
  {
    TallySnoc(hist, s, sec);
    var idx := Slot(s.sec, |ring|);
    assert SlotFits(ring, idx, Newest(hist));
    assert Shown(ring, sec) == Tally(hist, sec);
    if Slot(sec, |ring|) == idx && sec != s.sec {
      // The slot now shows s.sec, and no record of `sec` was ever made.
      if sec < s.sec {
        LapsApart(sec, s.sec, |ring|);
      } else {
        LapsApart(s.sec, sec, |ring|);
      }
    }
  }

  /** Exactly when a record does no harm. The ring goes on agreeing with the full history if and
      only if the record does not overwrite a later second that can still be asked for. */
  lemma HarmlessExactlyWhen(ring: seq<Bucket>, hist: seq<Sample>, s: Sample)
    requires Agrees(ring, hist) && s.sec >= 0
    ensures Agrees(Recorded(ring, s), hist + [s]) <==> !Overwrites(ring, hist, s)
  {
    FitsAfter(ring, hist, s);
    if Overwrites(ring, hist, s) {
      var idx := Slot(s.sec, |ring|);
      var ts := ring[idx].ts;
      assert SlotFits(ring, idx, Newest(hist));
      TallySnoc(hist, s, ts);
      assert Shown(ring, ts) == Tally(hist, ts) == ring[idx];
      assert Shown(Recorded(ring, s), ts) == Quiet(ts);
    } else {
      forall sec | sec > Newest(hist + [s]) - |ring| ensures Shown(Recorded(ring, s), sec) == Tally(hist + [s], sec) {
        ShownAfter(ring, hist, s, sec);
      }
    }
  }

  /** A record less than n seconds late is harmless. */
  lemma NotLateIsHarmless(ring: seq<Bucket>, hist: seq<Sample>, s: Sample)
    requires Agrees(ring, hist) && s.sec >= 0 && s.sec > Newest(hist) - |ring|
    ensures !Overwrites(ring, hist, s)
  {
    var idx := Slot(s.sec, |ring|);
    assert SlotFits(ring, idx, Newest(hist));
    if s.sec < ring[idx].ts { LapsApart(s.sec, ring[idx].ts, |ring|); }
  }

  /** Every record is less than n seconds older than the newest before it. */
  ghost predicate InTime(n: nat, hist: seq<Sample>) {
    forall i :: 0 <= i < |hist| ==> hist[i].sec >= 0 && hist[i].sec > Newest(hist[..i]) - n
  }

  lemma {:induction false} RunAgrees(n: nat, hist: seq<Sample>)
    requires n > 0 && InTime(n, hist)
    ensures Agrees(Run(n, hist), hist)
  {
    if hist == [] {
      EmptyAgrees(n);
    } else {
      var m := |hist| - 1;
      forall i | 0 <= i < m ensures hist[..m][i].sec >= 0 && hist[..m][i].sec > Newest(hist[..m][..i]) - n {
        assert hist[..m][..i] == hist[..i];
      }
      RunAgrees(n, hist[..m]);
      NotLateIsHarmless(Run(n, hist[..m]), hist[..m], hist[m]);
      HarmlessExactlyWhen(Run(n, hist[..m]), hist[..m], hist[m]);
      assert hist[..m] + [hist[m]] == hist;
    }
  }

  // ---------------------------------------------------------------- counting

  datatype Kind = Any | Passed | TurnedAway | Failed

  predicate Is(s: Sample, kind: Kind) {
    match kind
    case Any => true
    case Passed => s.allowed
    case TurnedAway => !s.allowed
    case Failed => s.isError
  }

  /** Which samples of a second are of a kind. */
  ghost function Which(hist: seq<Sample>, sec: int, kind: Kind): set<int> {
    set i | 0 <= i < |hist| && hist[i].sec == sec && Is(hist[i], kind)
  }

  /** A bucket holds nothing but the number of samples of its second, of each kind. */
  ghost predicate Counts(b: Bucket, hist: seq<Sample>, sec: int) {
    && b.ts == sec && b.total == |Which(hist, sec, Any)| && b.errors == |Which(hist, sec, Failed)|
    && b.allowed == |Which(hist, sec, Passed)| && b.blocked == |Which(hist, sec, TurnedAway)|
  }

  lemma WhichSnoc(hist: seq<Sample>, n: nat, sec: int, kind: Kind)
    requires |hist| == n + 1
    ensures |Which(hist, sec, kind)|
            == |Which(hist[..n], sec, kind)| + if hist[n].sec == sec && Is(hist[n], kind) then 1 else 0
  {
    var earlier := Which(hist[..n], sec, kind);
    assert n !in earlier;
    assert Which(hist, sec, kind) == if hist[n].sec == sec && Is(hist[n], kind) then earlier + {n} else earlier;
  }

  lemma NoneOf(sec: int, kind: Kind)
    ensures |Which([], sec, kind)| == 0
  {
    assert Which([], sec, kind) == {};
  }

  lemma {:induction false} TallyCounts(hist: seq<Sample>, sec: int)
    ensures Counts(Tally(hist, sec), hist, sec)
  {
    if hist == [] {
      NoneOf(sec, Any);
      NoneOf(sec, Passed);
      NoneOf(sec, TurnedAway);
      NoneOf(sec, Failed);
    } else {
      var n := |hist| - 1;
      TallyCounts(hist[..n], sec);
      WhichSnoc(hist, n, sec, Any);
      WhichSnoc(hist, n, sec, Passed);
      WhichSnoc(hist, n, sec, TurnedAway);
      WhichSnoc(hist, n, sec, Failed);
    }
  }

  /** What Series returns: n seconds ending at `end`, oldest first. */
  function Window(ring: seq<Bucket>, end: int): (w: seq<Bucket>)
    requires |ring| > 0
    ensures |w| == |ring|
  {
    seq(|ring|, i requires 0 <= i < |ring| => Shown(ring, end - |ring| + 1 + i))
  }

  lemma WindowCounts(ring: seq<Bucket>, hist: seq<Sample>, end: int, i: nat, sec: int)
    requires Agrees(ring, hist) && end >= Newest(hist) && i < |ring| && sec == end - |ring| + 1 + i
    ensures Counts(Window(ring, end)[i], hist, sec)
  {
    assert Shown(ring, sec) == Tally(hist, sec);
    TallyCounts(hist, sec);
  }

  /** The series agrees with the full history: in every run of records less than n seconds out of
      order, a query not before the newest record returns the n seconds up to it, one after the
      other, each with exactly the number of its requests in the whole history, of those allowed, of
      those blocked and of those that failed; no bucket leaks from an earlier lap. */
  lemma SeriesAgrees(n: nat, hist: seq<Sample>, end: int)
    requires n > 0 && InTime(n, hist) && end >= Newest(hist)
    ensures var w := Window(Run(n, hist), end);
            |w| == n && forall i :: 0 <= i < n ==> Counts(w[i], hist, end - n + 1 + i)
  {
    RunAgrees(n, hist);
    forall i | 0 <= i < n ensures Counts(Window(Run(n, hist), end)[i], hist, end - n + 1 + i) {
      WindowCounts(Run(n, hist), hist, end, i, end - n + 1 + i);
    }
  }

  /** The newest second has been counted. */
  lemma {:induction false} NewestIsCounted(hist: seq<Sample>)
    requires Newest(hist) >= 0
    ensures Tally(hist, Newest(hist)).total > 0
  {
    var n := |hist| - 1;
    if hist[n].sec < Newest(hist) || (hist[n].sec == Newest(hist) == Newest(hist[..n])) {
      NewestIsCounted(hist[..n]);
    }
  }

  lemma RunSnoc(n: nat, hist: seq<Sample>, s: Sample)
    requires n > 0
    ensures Run(n, hist + [s]) == Recorded(Run(n, hist), s)
  {
    assert (hist + [s])[..|hist|] == hist;
  }

  /** A record one lap behind a second takes over its bucket. */
  lemma LapBehindHides(ring: seq<Bucket>, late: Sample, sec: int)
    requires |ring| > 0 && late.sec == sec - |ring|
    ensures Shown(Recorded(ring, late), sec) == Quiet(sec)
  {
    SameSlot(sec, |ring|);
  }

  /** After any run, one record a full lap behind the newest second wipes that second out of what the
      series returns, although requests of that second are on record. */
  lemma LateRecordErases(n: nat, hist: seq<Sample>, late: Sample)
    requires n > 0 && late.sec == Newest(hist) - n && Newest(hist) >= 0
    ensures Newest(hist + [late]) == Newest(hist)
    ensures Tally(hist + [late], Newest(hist)) == Tally(hist, Newest(hist)) && Tally(hist, Newest(hist)).total > 0
    ensures Window(Run(n, hist + [late]), Newest(hist))[n - 1] == Quiet(Newest(hist))
  {
    NewestIsCounted(hist);
    TallySnoc(hist, late, Newest(hist));
    RunSnoc(n, hist, late);
    LapBehindHides(Run(n, hist), late, Newest(hist));
  }

  lemma SameSlot(sec: int, n: nat)
    requires n > 0
    ensures Slot(sec - n, n) == Slot(sec, n)
  {
    RemainderIs(sec - n, n, sec / n - 1, sec % n);
  }

  /** Remainders are unique. */
  lemma RemainderIs(a: int, n: int, q: int, r: int)
    requires n > 0 && 0 <= r < n && a == q * n + r
    ensures a % n == r
  {
    var k := q - a / n;
    assert k * n == a % n - r;
    NoMultipleBetween(k, n);
  }

  lemma NoMultipleBetween(k: int, n: int)
    requires n > 0 && -n < k * n < n
    ensures k == 0
  {
  }

  /** The program's remainder, which takes the sign of its left operand. */
  function Rem(a: int, n: int): int
    requires n > 0
  {
    if a >= 0 then a % n else -(-a % n)
  }

  /** A remainder that is not negative is the slot. */
  lemma RemainderIndexes(sec: int, n: nat)
    requires n > 0
    ensures Rem(sec, n) >= 0 <==> sec >= 0 || sec % n == 0
    ensures Rem(sec, n) >= 0 ==> Rem(sec, n) == Slot(sec, n)
  {
    if sec < 0 {
      var q, r := -sec / n, -sec % n;
      if r == 0 { RemainderIs(sec, n, -q, 0); } else { RemainderIs(sec, n, -q - 1, n - r); }
    }
  }

  /** Shifting a remainder up by n and taking it again finds the slot of any second. */
  lemma ShiftedRemainder(sec: int, n: nat)
    requires n > 0
    ensures Rem(Rem(sec, n) + n, n) == Slot(sec, n)
  {
    if sec >= 0 {
      RemainderIs(sec % n + n, n, 1, sec % n);
    } else {
      var r := -sec % n;
      if r == 0 {
        RemainderIs(n, n, 1, 0);
        RemainderIs(sec, n, -(-sec / n), 0);
      } else {
        RemainderIs(n - r, n, 0, n - r);
        RemainderIs(sec, n, -(-sec / n) - 1, n - r);
      }
    }
  }

  // ---------------------------------------------------------------- in place

  class Ring {
    const slots: array<Bucket>

    ghost predicate Valid()
      reads this
    {
      slots.Length >= 10
    }

    constructor (windowSeconds: int)
      ensures Valid() && fresh(slots)
      ensures slots.Length == if windowSeconds < 10 then 10 else windowSeconds
      ensures slots[..] == Run(slots.Length, [])
    {
      var n := if windowSeconds < 10 then 10 else windowSeconds;
      slots := new Bucket[n](_ => Quiet(0));
    }

    /** The remainder is the index as it stands, so a second before 1970 must be a multiple of the ring's
        length. */
    method Record(sec: int, allowed: bool, isError: bool)
      requires Valid() && Rem(sec, slots.Length) >= 0
      modifies slots
      ensures Valid() && slots[..] == Recorded(old(slots[..]), Sample(sec, allowed, isError))
      ensures forall i :: 0 <= i < slots.Length && i != Rem(sec, slots.Length) ==> slots[i] == old(slots[i])
      ensures var i := Rem(sec, slots.Length);
              var seen := old(slots[..])[i].ts == sec;
              var b := if seen then old(slots[..])[i] else Bucket(sec, 0, 0, 0, 0);
              && slots[i].ts == sec && slots[i].total == b.total + 1
              && slots[i].allowed == b.allowed + (if allowed then 1 else 0)
              && slots[i].blocked == b.blocked + (if allowed then 0 else 1)
              && slots[i].errors == b.errors + if isError then 1 else 0
    {
      RemainderIndexes(sec, slots.Length);
      var idx := Rem(sec, slots.Length);
      if slots[idx].ts != sec {
        slots[idx] := Quiet(sec);
      }
      slots[idx] := slots[idx].(total := slots[idx].total + 1);
      if allowed {
        slots[idx] := slots[idx].(allowed := slots[idx].allowed + 1);
      } else {
        slots[idx] := slots[idx].(blocked := slots[idx].blocked + 1);
      }
      if isError {
        slots[idx] := slots[idx].(errors := slots[idx].errors + 1);
      }
    }

    method Series(end: int) returns (out: seq<Bucket>)
      requires Valid()
      ensures out == Window(slots[..], end)
    {
      var n := slots.Length;
      out := [];
      var i := n - 1;
      while i >= 0
        invariant -1 <= i < n
        invariant |out| == n - 1 - i
        invariant forall j :: 0 <= j < |out| ==> out[j] == Shown(slots[..], end - n + 1 + j)
      {
        var sec := end - i;
        ShiftedRemainder(sec, n);
        var b := slots[Rem(Rem(sec, n) + n, n)];
        if b.ts != sec {
          b := Quiet(sec);
        }
        out := out + [b];
        i := i - 1;
      }
    }
  }
}
