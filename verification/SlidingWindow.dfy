/** Counting timestamps in windows, independently of how any limiter stores them. */
module SlidingWindow {

  ghost predicate Ascending(s: seq<int>) {
    forall i, j :: 0 <= i < j < |s| ==> s[i] <= s[j]
  }

  ghost predicate AllAtMost(s: seq<int>, bound: int) {
    forall i :: 0 <= i < |s| ==> s[i] <= bound
  }

  /** What memEntry.prune leaves: everything after the leading run of expired hits. */
  function Prune(hits: seq<int>, cutoff: int): (r: seq<int>)
    ensures |r| <= |hits|
  {
    if hits != [] && hits[0] <= cutoff then Prune(hits[1..], cutoff) else hits
  }

  /** Pruning drops a prefix, all of it expired, and stops at a live hit. */
  lemma {:induction false} PruneShape(hits: seq<int>, cutoff: int)
    ensures var r := Prune(hits, cutoff);
            && (forall i :: 0 <= i < |r| ==> r[i] == hits[|hits| - |r| + i])
            && (forall i :: 0 <= i < |hits| - |r| ==> hits[i] <= cutoff)
            && (r == [] || r[0] > cutoff)
  {
    if hits != [] && hits[0] <= cutoff { PruneShape(hits[1..], cutoff); }
  }

  /** Pruning cuts at the first hit that has not expired. */
  lemma {:induction false} PruneCuts(hits: seq<int>, i: nat, cutoff: int)
    requires i <= |hits|
    requires forall j :: 0 <= j < i ==> hits[j] <= cutoff
    requires i < |hits| ==> hits[i] > cutoff
    ensures Prune(hits, cutoff) == hits[i..]
  {
    if i > 0 {
      PruneCuts(hits[1..], i - 1, cutoff);
      assert hits[1..][i - 1..] == hits[i..];
    }
  }

  /** How many stamps are later than `a`. */
  function CountAfter(s: seq<int>, a: int): (n: nat)
    ensures n <= |s|
  {
    if s == [] then 0
    else CountAfter(s[..|s| - 1], a) + if s[|s| - 1] > a then 1 else 0
  }

  /** How many stamps lie in the half-open window (lo, hi]. */
  function CountIn(s: seq<int>, lo: int, hi: int): (n: nat)
    ensures n <= |s|
  {
    if s == [] then 0
    else CountIn(s[..|s| - 1], lo, hi) + if lo < s[|s| - 1] <= hi then 1 else 0
  }

  /** The first stamp later than `a`. */
  function FirstAfter(s: seq<int>, a: int): (t: int)
    requires CountAfter(s, a) > 0
    ensures t in s && t > a
  {
    if CountAfter(s[..|s| - 1], a) > 0 then FirstAfter(s[..|s| - 1], a) else s[|s| - 1]
  }

  lemma {:induction false} CountAfterConcat(s: seq<int>, t: seq<int>, a: int)
    ensures CountAfter(s + t, a) == CountAfter(s, a) + CountAfter(t, a)
  {
    if t == [] {
      assert s + t == s;
    } else {
      assert (s + t)[..|s + t| - 1] == s + t[..|t| - 1];
      CountAfterConcat(s, t[..|t| - 1], a);
    }
  }

  lemma CountAfterSnoc(s: seq<int>, t: int, a: int)
    ensures CountAfter(s + [t], a) == CountAfter(s, a) + if t > a then 1 else 0
  {
    assert (s + [t])[..|s + [t]| - 1] == s;
  }

  lemma FirstAfterSnoc(s: seq<int>, t: int, a: int)
    requires t > a
    ensures CountAfter(s + [t], a) > 0
    ensures FirstAfter(s + [t], a) == if CountAfter(s, a) > 0 then FirstAfter(s, a) else t
  {
    assert (s + [t])[..|s + [t]| - 1] == s;
  }

  lemma {:induction false} CountAfterNone(s: seq<int>, a: int)
    requires AllAtMost(s, a)
    ensures CountAfter(s, a) == 0
  {
    if s != [] { CountAfterNone(s[..|s| - 1], a); }
  }

  lemma {:induction false} CountAfterAll(s: seq<int>, a: int)
    requires forall i :: 0 <= i < |s| ==> s[i] > a
    ensures CountAfter(s, a) == |s|
    ensures s != [] ==> FirstAfter(s, a) == s[0]
  {
    if s != [] { CountAfterAll(s[..|s| - 1], a); }
  }

  /** A longer look-back counts at least as much. */
  lemma {:induction false} CountAfterMonotone(s: seq<int>, a: int, b: int)
    requires a <= b
    ensures CountAfter(s, b) <= CountAfter(s, a)
  {
    if s != [] { CountAfterMonotone(s[..|s| - 1], a, b); }
  }

  lemma {:induction false} CountInAtMostAfter(s: seq<int>, lo: int, hi: int)
    ensures CountIn(s, lo, hi) <= CountAfter(s, lo)
    ensures AllAtMost(s, hi) ==> CountIn(s, lo, hi) == CountAfter(s, lo)
  {
    if s != [] { CountInAtMostAfter(s[..|s| - 1], lo, hi); }
  }

  lemma {:induction false} CountInConcat(s: seq<int>, t: seq<int>, lo: int, hi: int)
    ensures CountIn(s + t, lo, hi) == CountIn(s, lo, hi) + CountIn(t, lo, hi)
  {
    if t == [] {
      assert s + t == s;
    } else {
      assert (s + t)[..|s + t| - 1] == s + t[..|t| - 1];
      CountInConcat(s, t[..|t| - 1], lo, hi);
    }
  }

  /** Adjacent windows add up. */
  lemma {:induction false} CountInSplit(s: seq<int>, lo: int, mid: int, hi: int)
    requires lo <= mid <= hi
    ensures CountIn(s, lo, hi) == CountIn(s, lo, mid) + CountIn(s, mid, hi)
  {
    if s != [] { CountInSplit(s[..|s| - 1], lo, mid, hi); }
  }

  lemma {:induction false} CountInWiden(s: seq<int>, lo: int, hi: int, lo': int, hi': int)
    requires lo' <= lo && hi <= hi'
    ensures CountIn(s, lo, hi) <= CountIn(s, lo', hi')
  {
    if s != [] { CountInWiden(s[..|s| - 1], lo, hi, lo', hi'); }
  }

  /** Request number j of a log was stamped stamps[j] by its caller and decided at instant ats[j], at
      most `lag` later, when fewer than `limit` of the earlier stamps were within `window` of that
      instant. */
  ghost predicate SpacedAt(stamps: seq<int>, ats: seq<int>, limit: int, window: int, lag: int, j: nat)
    requires j < |stamps| == |ats|
  {
    stamps[j] <= ats[j] <= stamps[j] + lag && CountAfter(stamps[..j], ats[j] - window) < limit
  }

  /** A log of admissions, each decided correctly. */
  ghost predicate Spaced(stamps: seq<int>, ats: seq<int>, limit: int, window: int, lag: int) {
    |stamps| == |ats| && forall j :: 0 <= j < |stamps| ==> SpacedAt(stamps, ats, limit, window, lag, j)
  }

  lemma TakeOfSnoc(s: seq<int>, t: int, j: nat)
    requires j <= |s|
    ensures (s + [t])[..j] == s[..j]
  {
  }

  lemma SpacedAtSnoc(stamps: seq<int>, ats: seq<int>, limit: int, window: int, lag: int, stamp: int, at: int, j: nat)
    requires j < |stamps| == |ats| && SpacedAt(stamps, ats, limit, window, lag, j)
    ensures SpacedAt(stamps + [stamp], ats + [at], limit, window, lag, j)
  {
    TakeOfSnoc(stamps, stamp, j);
  }

  lemma SpacedAtEnd(stamps: seq<int>, ats: seq<int>, limit: int, window: int, lag: int, stamp: int, at: int)
    requires |stamps| == |ats| && stamp <= at <= stamp + lag && CountAfter(stamps, at - window) < limit
    ensures SpacedAt(stamps + [stamp], ats + [at], limit, window, lag, |stamps|)
  {
    TakeOfSnoc(stamps, stamp, |stamps|);
    assert stamps[..|stamps|] == stamps;
  }

  /** Extending a log by one admission that was decided correctly. */
  lemma SpacedAppend(stamps: seq<int>, ats: seq<int>, limit: int, window: int, lag: int, stamp: int, at: int)
    requires Spaced(stamps, ats, limit, window, lag)
    requires stamp <= at <= stamp + lag && CountAfter(stamps, at - window) < limit
    ensures Spaced(stamps + [stamp], ats + [at], limit, window, lag)
  {
    forall j: nat | j <= |stamps| ensures SpacedAt(stamps + [stamp], ats + [at], limit, window, lag, j) {
      if j < |stamps| {
        SpacedAtSnoc(stamps, ats, limit, window, lag, stamp, at, j);
      } else {
        SpacedAtEnd(stamps, ats, limit, window, lag, stamp, at);
      }
    }
  }

  lemma SpacedPrefix(stamps: seq<int>, ats: seq<int>, limit: int, window: int, lag: int, n: nat)
    requires Spaced(stamps, ats, limit, window, lag) && n <= |stamps|
    ensures Spaced(stamps[..n], ats[..n], limit, window, lag)
  {
    forall j: nat | j < n ensures SpacedAt(stamps[..n], ats[..n], limit, window, lag, j) {
      assert SpacedAt(stamps, ats, limit, window, lag, j);
      assert stamps[..n][..j] == stamps[..j];
    }
  }

  /** Room for one more in the true window is room in any window that ends no later than the stamp
      could have been made. */
  lemma OneMoreFits(earlier: seq<int>, at: int, limit: int, window: int, a: int, b: int)
    requires CountAfter(earlier, at - window) < limit && at - window <= a
    ensures CountIn(earlier, a, b) + 1 <= limit
  {
    CountInAtMostAfter(earlier, a, b);
    CountAfterMonotone(earlier, at - window, a);
  }

  /** The window theorem in its barest form: no window shorter than `window` by the lag ever
      holds more than `limit` admissions. */
  lemma {:induction false} SpacedWindow(stamps: seq<int>, ats: seq<int>, limit: int, window: int, lag: int, a: int)
    requires Spaced(stamps, ats, limit, window, lag) && limit >= 0
    ensures CountIn(stamps, a, a + window - lag) <= limit
  {
    if stamps != [] {
      var n := |stamps| - 1;
      SpacedPrefix(stamps, ats, limit, window, lag, n);
      SpacedWindow(stamps[..n], ats[..n], limit, window, lag, a);
      assert SpacedAt(stamps, ats, limit, window, lag, n);
      if a < stamps[n] <= a + window - lag {
        OneMoreFits(stamps[..n], ats[n], limit, window, a, a + window - lag);
      }
    }
  }

  /** Whose stamps lie in the window (lo, hi]. */
  function Marked<T>(stamps: seq<int>, marks: seq<T>, lo: int, hi: int): (r: set<T>)
    requires |marks| == |stamps|
    ensures |r| <= CountIn(stamps, lo, hi)
    ensures forall i :: 0 <= i < |stamps| && lo < stamps[i] <= hi ==> marks[i] in r
  {
    if stamps == [] then {}
    else
      var n := |stamps| - 1;
      var r := Marked(stamps[..n], marks[..n], lo, hi);
      assert forall i :: 0 <= i < n ==> stamps[..n][i] == stamps[i] && marks[..n][i] == marks[i];
      if lo < stamps[n] <= hi then r + {marks[n]} else r
  }

  lemma SubsetSize<T>(small: set<T>, large: set<T>)
    requires small <= large
    ensures |small| <= |large|
  {
    if small != {} {
      var x :| x in small;
      SubsetSize(small - {x}, large - {x});
    }
  }
}
