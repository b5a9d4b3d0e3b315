/** The metrics collector as the program writes it, for one goroutine at a time:
    internal/metrics/metrics.go. */
module Collector {
  import opened C = Clients
  import opened Policies
  import Series
  import Sorting

  /** A key and when it was last seen, to be ranked by age. */
  datatype Aged = Aged(key: string, seen: int)

  predicate SeenBefore(a: Aged, b: Aged) {
    a.seen < b.seen
  }

  /** The keys of a table, each once, in some order. */
  ghost predicate Enumerates(keys: seq<string>, t: Table) {
    && Sorting.NoDuplicates(keys)
    && |keys| == |t|
    && forall k :: k in keys <==> k in t
  }

  ghost predicate AgesOf(all: seq<Aged>, keys: seq<string>, t: Table) {
    && |all| == |keys|
    && forall i :: 0 <= i < |all| ==> keys[i] in t && all[i] == Aged(keys[i], t[keys[i]].lastSeen)
  }

  ghost predicate DistinctKeys(all: seq<Aged>) {
    forall i, j :: 0 <= i < j < |all| ==> all[i].key != all[j].key
  }

  ghost predicate Lists(all: seq<Aged>, k: string) {
    exists i :: 0 <= i < |all| && all[i].key == k
  }

  /** A table's ages, each key once. */
  ghost predicate Complete(all: seq<Aged>, t: Table) {
    && DistinctKeys(all)
    && (forall i :: 0 <= i < |all| ==> all[i].key in t && all[i].seen == t[all[i].key].lastSeen)
    && (forall k :: k in t ==> Lists(all, k))
  }

  lemma AgesComplete(all: seq<Aged>, keys: seq<string>, t: Table)
    requires Enumerates(keys, t) && AgesOf(all, keys, t)
    ensures Complete(all, t)
  {
    forall k | k in t ensures Lists(all, k) {
      var i :| 0 <= i < |keys| && keys[i] == k;
      assert all[i].key == k;
    }
  }

  /** Rearranging loses and repeats no key. */
  lemma RearrangedComplete(all: seq<Aged>, sorted: seq<Aged>, t: Table)
    requires Complete(all, t) && Sorting.NoDuplicates(sorted)
    requires forall a :: a in sorted <==> a in all
    ensures Complete(sorted, t)
  {
    forall i, j | 0 <= i < j < |sorted| ensures sorted[i].key != sorted[j].key {
      assert sorted[i] in all && sorted[j] in all;
    }
    forall i | 0 <= i < |sorted| ensures sorted[i].key in t && sorted[i].seen == t[sorted[i].key].lastSeen {
      assert sorted[i] in all;
    }
    forall k | k in t ensures Lists(sorted, k) {
      assert Lists(all, k);
      var i :| 0 <= i < |all| && all[i].key == k;
      assert all[i] in sorted;
    }
  }

  lemma SeenBeforeSorts()
    ensures Sorting.StrictWeak(SeenBefore)
  {
  }

  lemma SortAges(all: seq<Aged>, t: Table)
    requires Complete(all, t)
    ensures Complete(Sorting.Sort(all, SeenBefore), t)
    ensures Sorting.Ordered(Sorting.Sort(all, SeenBefore), SeenBefore)
  {
    SeenBeforeSorts();
    Sorting.SortSorts(all, SeenBefore);
    RearrangedComplete(all, Sorting.Sort(all, SeenBefore), t);
  }

  /** What is left after deleting the first n keys in order of age. */
  ghost predicate Without(sorted: seq<Aged>, n: nat, t: Table, left: Table)
    requires n <= |sorted|
  {
    && |left| == |t| - n
    && (forall k :: k in left ==> k in t && left[k] == t[k])
    && forall i :: 0 <= i < |sorted| ==> (sorted[i].key in left <==> i >= n)
  }

  lemma WithoutOneMore(sorted: seq<Aged>, n: nat, t: Table, left: Table)
    requires DistinctKeys(sorted) && n < |sorted| && Without(sorted, n, t, left)
    ensures Without(sorted, n + 1, t, left - {sorted[n].key})
  {
    var key := sorted[n].key;
    assert key in left;
    assert (left - {key}).Keys == left.Keys - {key};
  }

  /** Deleting the oldest keys leaves the most recently seen. */
  lemma OldestGone(sorted: seq<Aged>, n: nat, t: Table, left: Table, max: nat)
    requires Complete(sorted, t) && Sorting.Ordered(sorted, SeenBefore)
    requires n <= |sorted| && Without(sorted, n, t, left)
    requires |t| > max + SLACK && n == |t| - max
    ensures Capped(t, left, max)
  {
    forall k, l | k in t && k !in left && l in left ensures t[k].lastSeen <= t[l].lastSeen {
      assert Lists(sorted, k) && Lists(sorted, l);
      var i :| 0 <= i < |sorted| && sorted[i].key == k;
      var j :| 0 <= j < |sorted| && sorted[j].key == l;
      assert i < n <= j && !SeenBefore(sorted[j], sorted[i]);
    }
  }

  ghost predicate ViewsOf(rows: seq<View>, keys: seq<string>, t: Table, now: int) {
    && |rows| == |keys|
    && forall i :: 0 <= i < |rows| ==> keys[i] in t && rows[i] == ViewOf(keys[i], t[keys[i]], now)
  }

  ghost predicate IsRow(v: View, t: Table, now: int) {
    v.key in t && v == ViewOf(v.key, t[v.key], now)
  }

  /** All lines of the table, in strict order. */
  lemma SortRows(rows: seq<View>, keys: seq<string>, t: Table, now: int)
    requires Enumerates(keys, t) && ViewsOf(rows, keys, t, now)
    ensures var sorted := Sorting.Sort(rows, Before);
            && (forall i :: 0 <= i < |sorted| ==> IsRow(sorted[i], t, now))
            && (forall i, j :: 0 <= i < j < |sorted| ==> Before(sorted[i], sorted[j]))
            && (forall k :: k in t ==> ViewOf(k, t[k], now) in sorted)
  {
    var sorted := Sorting.Sort(rows, Before);
    BeforeSorts();
    Sorting.SortSorts(rows, Before);
    forall i | 0 <= i < |sorted| ensures IsRow(sorted[i], t, now) {
      assert sorted[i] in rows;
    }
    forall i, j | 0 <= i < j < |sorted| ensures Before(sorted[i], sorted[j]) {
      assert IsRow(sorted[i], t, now) && IsRow(sorted[j], t, now);
      StrictlyBefore(sorted, t, now, i, j);
    }
    forall k | k in t ensures ViewOf(k, t[k], now) in sorted {
      var m :| 0 <= m < |keys| && keys[m] == k;
      assert rows[m] in sorted;
    }
  }

  lemma PrefixIsTop(sorted: seq<View>, t: Table, now: int, n: nat)
    requires n <= |sorted|
    requires forall i :: 0 <= i < |sorted| ==> IsRow(sorted[i], t, now)
    requires forall i, j :: 0 <= i < j < |sorted| ==> Before(sorted[i], sorted[j])
    requires forall k :: k in t ==> ViewOf(k, t[k], now) in sorted
    ensures TopOf(sorted[..n], t, now)
  {
    var top := sorted[..n];
    forall i | 0 <= i < n ensures top[i].key in t && top[i] == ViewOf(top[i].key, t[top[i].key], now) {
      assert IsRow(sorted[i], t, now);
    }
    forall k | k in t
      ensures Listed(top, k) || AllBefore(top, ViewOf(k, t[k], now))
    {
      var j :| 0 <= j < |sorted| && sorted[j] == ViewOf(k, t[k], now);
      if j < n { assert top[j].key == k; }
    }
  }

  lemma StrictlyBefore(sorted: seq<View>, t: Table, now: int, i: nat, j: nat)
    requires i < j < |sorted| && Sorting.Ordered(sorted, Before) && Sorting.NoDuplicates(sorted)
    requires sorted[i].key in t && sorted[i] == ViewOf(sorted[i].key, t[sorted[i].key], now)
    requires sorted[j].key in t && sorted[j] == ViewOf(sorted[j].key, t[sorted[j].key], now)
    ensures Before(sorted[i], sorted[j])
  {
    assert sorted[i] != sorted[j];
    KeyOrderTotal(sorted[i].key, sorted[j].key);
  }

  /** The first of the sorted lines are the listing. */
  lemma FirstRows(rows: seq<View>, keys: seq<string>, t: Table, now: int, n: nat)
    requires Enumerates(keys, t) && ViewsOf(rows, keys, t, now) && n <= |rows|
    ensures var top := Sorting.Sort(rows, Before)[..n]; TopOf(top, t, now) && Listing(top, t, now)
  {
    SortRows(rows, keys, t, now);
    PrefixIsTop(Sorting.Sort(rows, Before), t, now, n);
    TopIsListing(Sorting.Sort(rows, Before)[..n], t, now);
  }

  class Collector {
    const ring: Series.Ring
    const clientTTL: int
    const maxClients: nat

    var total: nat
    var allowed: nat
    var blocked: nat
    var errors: nat
    var latSum: nat
    var latCount: nat
    var clients: Table

    ghost predicate Valid()
      reads this, ring
    {
      ring.Valid() && total == allowed + blocked == latCount && errors <= total
    }

    constructor (windowSeconds: int, ttl: int)
      ensures Valid() && fresh(ring) && fresh(ring.slots)
      ensures total == 0 && clients == map[] && maxClients == 500
      ensures clientTTL == if ttl <= 0 then 300 * SECOND else ttl
    {
      ring := new Series.Ring(windowSeconds);
      clientTTL := if ttl <= 0 then 300 * SECOND else ttl;
      maxClients := 500;
      total, allowed, blocked, errors, latSum, latCount := 0, 0, 0, 0, 0, 0;
      clients := map[];
    }

    /** Folds one request outcome into every aggregate, all at the same instant. */
    method Record(ev: Event, now: int)
      requires Valid() && Series.Rem(now / SECOND, ring.slots.Length) >= 0
      modifies this, ring.slots
      ensures Valid()
      ensures total == old(total) + 1
      ensures allowed == old(allowed) + if ev.allowed then 1 else 0
      ensures errors == old(errors) + if ev.status >= 500 then 1 else 0
      ensures latSum == old(latSum) + if ev.latency > 0 then ev.latency else 0
      ensures ring.slots[..]
              == Series.Recorded(old(ring.slots[..]), Series.Sample(now / SECOND, ev.allowed, ev.status >= 500))
      ensures if ev.key == "" then clients == old(clients) else Recorded(old(clients), ev, now, maxClients, clients)
    {
      total := total + 1;
      var isError := ev.status >= 500;
      if ev.allowed {
        allowed := allowed + 1;
      } else {
        blocked := blocked + 1;
      }
      if isError {
        errors := errors + 1;
      }
      if ev.latency > 0 {
        latSum := latSum + ev.latency;
      }
      latCount := latCount + 1;
      ring.Record(now / SECOND, ev.allowed, isError);
      if ev.key != "" {
        RecordClient(ev, now);
      }
    }

    method RecordClient(ev: Event, now: int)
      modifies this`clients
      ensures Recorded(old(clients), ev, now, maxClients, clients)
    {
      var row := Fresh(ev.kind);
      var loaded := ev.key in clients;
      if loaded {
        row := clients[ev.key];
      } else {
        clients := clients[ev.key := row];
        EnforceClientCap();
      }
      ghost var kept := clients;
      row := Touch(row, ev, now);
      // The row is shared with the table only if the pass has left it there.
      if ev.key in clients {
        clients := clients[ev.key := row];
      }
      assert !loaded ==> Capped(old(clients)[ev.key := Fresh(ev.kind)], kept, maxClients);
      assert clients == TouchIfKept(kept, ev, now);
    }

    /** Hands out the keys in some order. */
    method Range() returns (keys: seq<string>)
      ensures Enumerates(keys, clients)
    {
      keys := [];
      var remaining := clients.Keys;
      while remaining != {}
        invariant remaining <= clients.Keys
        invariant Sorting.NoDuplicates(keys) && |keys| + |remaining| == |clients|
        invariant forall k :: k in keys <==> k in clients && k !in remaining
        decreases |remaining|
      {
        var k :| k in remaining;
        remaining := remaining - {k};
        keys := keys + [k];
      }
    }

    method EnforceClientCap()
      modifies this`clients
      ensures Capped(old(clients), clients, maxClients)
      ensures forall k :: k in clients ==> k in old(clients) && clients[k] == old(clients)[k]
      ensures if |old(clients)| <= maxClients + 64 then clients == old(clients) else |clients| == maxClients
      ensures forall k, l :: k in old(clients) && k !in clients && l in clients ==>
                old(clients)[k].lastSeen <= old(clients)[l].lastSeen
    {
      var keys := Range();
      var n := 0;
      while n < |keys| && n <= maxClients + SLACK
        invariant 0 <= n <= |keys|
      {
        n := n + 1;
      }
      if n <= maxClients + SLACK { return; }
      var all: seq<Aged> := [];
      while |all| < |keys|
        invariant |all| <= |keys| && AgesOf(all, keys[..|all|], clients)
      {
        all := all + [Aged(keys[|all|], clients[keys[|all|]].lastSeen)];
      }
      assert keys[..|all|] == keys;
      AgesComplete(all, keys, clients);
      SortAges(all, clients);
      all := Sorting.Sort(all, SeenBefore);
      var i := 0;
      while i < |all| - maxClients
        invariant 0 <= i <= |all| - maxClients
        invariant Without(all, i, old(clients), clients)
      {
        WithoutOneMore(all, i, old(clients), clients);
        clients := clients - {all[i].key};
        i := i + 1;
      }
      OldestGone(all, i, old(clients), clients, maxClients);
    }

    /** Up to `limit` rows, busiest first, and how many keys there are. */
    method Clients(now: int, limit: nat) returns (rows: seq<View>, tracked: nat)
      ensures tracked == |clients|
      ensures |rows| == if tracked > limit then limit else tracked
      ensures TopOf(rows, clients, now) && Listing(rows, clients, now)
    {
      var keys := Range();
      rows := [];
      while |rows| < |keys|
        invariant |rows| <= |keys| && ViewsOf(rows, keys[..|rows|], clients, now)
      {
        rows := rows + [ViewOf(keys[|rows|], clients[keys[|rows|]], now)];
      }
      assert keys[..|rows|] == keys;
      tracked := |rows|;
      FirstRows(rows, keys, clients, now, if tracked > limit then limit else tracked);
      rows := Sorting.Sort(rows, Before);
      assert rows[..|rows|] == rows;
      if |rows| > limit {
        rows := rows[..limit];
      }
    }

    /** Forgets clients idle for longer than the time to live. */
    method Sweep(now: int) returns (removed: nat)
      modifies this`clients
      ensures clients == Swept(old(clients), now - clientTTL)
      ensures forall k :: k in clients <==> k in old(clients) && old(clients)[k].lastSeen >= now - clientTTL
      ensures forall k :: k in clients ==> clients[k] == old(clients)[k]
      ensures removed == |old(clients)| - |clients|
    {
      var cutoff := now - clientTTL;
      removed := 0;
      var remaining := clients.Keys;
      while remaining != {}
        invariant remaining <= clients.Keys <= old(clients).Keys
        invariant forall k :: k in clients ==> clients[k] == old(clients)[k]
        invariant forall k :: k in old(clients) && k !in remaining ==>
                                (k in clients <==> old(clients)[k].lastSeen >= cutoff)
        invariant removed == |old(clients)| - |clients|
        decreases |remaining|
      {
        var k :| k in remaining;
        remaining := remaining - {k};
        if clients[k].lastSeen < cutoff {
          assert (clients - {k}).Keys == clients.Keys - {k};
          clients := clients - {k};
          removed := removed + 1;
        }
      }
    }

    /** Clears the client table without touching the totals. */
    method ResetClients()
      modifies this`clients
      ensures clients == map[]
    {
      while clients != map[]
        decreases clients.Keys
      {
        var k :| k in clients;
        clients := clients - {k};
      }
    }
  }
}
