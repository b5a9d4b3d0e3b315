/** The in-memory limiter as the program writes it: internal/limiter/memory.go. */
module MemoryLimiter {
  import opened Policies
  import SlidingWindow
  import M = MemoryModel
  import F = FullHistory

  /** The most an append may allocate: never more than four times what it has to hold, once that
      is above sixteen. Doubling satisfies this with room for rounding up to a size class. */
  function MostCapacity(needed: nat): nat {
    if 4 * needed <= 64 then 64 else 4 * needed
  }

  /** The sliding log of one key. `hits` is the backing array; its first `len` cells hold the
      `contents`. */
  class MemEntry {
    var hits: array<int>
    var len: nat
    var window: int
    var dead: bool
    var lastSeen: int

    ghost var contents: seq<int>

    /** The array holds the contents, and a burst does not pin memory for ever. */
    ghost predicate Valid()
      reads this, hits
    {
      && len == |contents| <= hits.Length <= MostCapacity(len)
      && forall i :: 0 <= i < len ==> hits[i] == contents[i]
    }

    ghost function Value(): M.Entry
      reads this
    {
      M.Entry(contents, window, dead, lastSeen)
    }

    constructor ()
      ensures Valid() && Value() == M.FRESH
      ensures fresh(hits)
    {
      hits := new int[0];
      len, window, dead, lastSeen := 0, 0, false, 0;
      contents := [];
    }

    /** Drops the leading expired hits, moving the rest to the front of the same array and then
        giving up the array if it is mostly empty. */
    method Prune(cutoff: int)
      requires Valid()
      modifies this`hits, this`len, this`contents, hits
      ensures Valid()
      ensures hits == old(hits) || fresh(hits)
      ensures contents == SlidingWindow.Prune(old(contents), cutoff)
    {
      var i := Leading(cutoff);
      SlidingWindow.PruneCuts(contents, i, cutoff);
      if i == 0 { return; }
      Compress(i);
      if hits.Length > 64 && hits.Length > 4 * len {
        Shrink();
      }
    }

    /** How many hits at the front have expired. */
    method Leading(cutoff: int) returns (i: nat)
      requires Valid()
      ensures i <= len
      ensures forall j :: 0 <= j < i ==> contents[j] <= cutoff
      ensures i < len ==> contents[i] > cutoff
    {
      i := 0;
      while i < len && hits[i] <= cutoff
        invariant 0 <= i <= len
        invariant forall j :: 0 <= j < i ==> contents[j] <= cutoff
      {
        i := i + 1;
      }
    }

    /** The overlapping copy behind append(hits[:0], hits[i:]...), within the same array. */
    method Compress(i: nat)
      requires Valid() && i <= len
      modifies this`len, this`contents, hits
      ensures len == |contents| && contents == old(contents)[i..]
      ensures len <= hits.Length && forall k :: 0 <= k < len ==> hits[k] == contents[k]
    {
      var j := 0;
      while j < len - i
        invariant len == old(len) && contents == old(contents)
        invariant 0 <= j <= len - i
        invariant forall k :: 0 <= k < j ==> hits[k] == contents[i + k]
        invariant forall k :: j <= k < len ==> hits[k] == contents[k]
      {
        hits[j] := hits[i + j];
        j := j + 1;
      }
      len := len - i;
      contents := contents[i..];
    }

    /** Moves the hits to a smaller array. */
    method Shrink()
      requires len == |contents| <= hits.Length && forall k :: 0 <= k < len ==> hits[k] == contents[k]
      modifies this`hits
      ensures Valid() && fresh(hits)
    {
      var shrunk := new int[if 2 * len < 8 then 8 else 2 * len];
      CopyInto(shrunk);
      hits := shrunk;
    }

    method CopyInto(target: array<int>)
      requires len == |contents| <= hits.Length && forall k :: 0 <= k < len ==> hits[k] == contents[k]
      requires len <= target.Length && target != hits
      modifies target
      ensures forall k :: 0 <= k < len ==> target[k] == contents[k]
    {
      var j := 0;
      while j < len
        invariant 0 <= j <= len
        invariant forall k :: 0 <= k < j ==> target[k] == contents[k]
      {
        target[j] := hits[j];
        j := j + 1;
      }
    }

    /** append(hits, x), reallocating when the array is full. */
    method Append(x: int)
      requires Valid()
      modifies this`hits, this`len, this`contents, hits
      ensures Valid()
      ensures hits == old(hits) || fresh(hits)
      ensures contents == old(contents) + [x]
    {
      if len == hits.Length {
        var capacity: nat :| len < capacity <= MostCapacity(len + 1);
        var grown := new int[capacity];
        CopyInto(grown);
        hits := grown;
      }
      hits[len] := x;
      len := len + 1;
      contents := contents + [x];
    }

    /** The critical section of Allow on a live entry. The log never outgrows the largest limit
        applied to it. */
    method Decide(now: int, p: Policy) returns (d: Decision)
      requires Valid() && p.Enforceable()
      modifies this`hits, this`len, this`contents, this`window, hits
      ensures Valid()
      ensures hits == old(hits) || fresh(hits)
      ensures (Value(), d) == M.Decide(old(Value()), now, p)
      ensures contents == SlidingWindow.Prune(old(contents), now - p.window) + if d.allowed then [now] else []
      ensures M.Tells(d, contents, now, p)
      ensures len <= old(len) || len <= p.limit
    {
      window := p.window;
      Prune(now - p.window);
      var used := len;
      if used >= p.limit {
        var resetAt := hits[0] + p.window;
        d := Deny(Memory, p, used, resetAt, now);
        return;
      }
      Append(now);
      used := used + 1;
      var resetAt := hits[0] + p.window;
      d := Decision(true, p.limit, p.window, used, p.limit - used, resetAt, NonNegative(resetAt - now), Memory);
    }

    /** The critical section of cleanup. */
    method Visit(now: int, minTTL: int) returns (idle: bool)
      requires Valid()
      modifies this`hits, this`len, this`contents, this`dead, hits
      ensures Valid()
      ensures hits == old(hits) || fresh(hits)
      ensures idle <==> now - lastSeen > 2 * window && now - lastSeen > minTTL
      ensures idle == M.Idle(old(Value()), now, minTTL)
      ensures Value() == M.Visit(old(Value()), now, minTTL)
      ensures dead == (old(dead) || idle)
      ensures contents == if idle then [] else SlidingWindow.Prune(old(contents), now - window)
    {
      var ttl := 2 * window;
      if ttl < minTTL { ttl := minTTL; }
      idle := now - lastSeen > ttl;
      if idle {
        dead := true;
        hits := new int[0];
        len, contents := 0, [];
      } else {
        Prune(now - window);
      }
    }
  }

  lemma SetTwice(t: M.Table, key: string, v: M.Entry, w: M.Entry)
    ensures t[key := v][key := w] == t[key := w]
    ensures t[key := v] - {key} == t - {key}
    ensures (t - {key})[key := v] == t[key := v]
  {
  }

  /** What a lookup by Allow makes of the table. */
  ghost function Stamped(t: M.Table, key: string, now: int): M.Table {
    t[key := (if key in t then t[key] else M.FRESH).(lastSeen := now)]
  }

  /** What the lookups together make of it. */
  ghost function Found(t: M.Table, key: string, now: int): M.Table {
    t[key := M.Acquire(t, key).(lastSeen := now)]
  }

  lemma FirstTry(t: M.Table, key: string, now: int)
    ensures !Stamped(t, key, now)[key].dead ==> Stamped(t, key, now) == Found(t, key, now)
    ensures !Found(t, key, now)[key].dead
  {
  }

  lemma SecondTry(t: M.Table, key: string, now: int)
    ensures Stamped(t, key, now) - {key} == t - {key}
    ensures Stamped(t, key, now)[key].dead ==> Stamped(t - {key}, key, now) == Found(t, key, now)
  {
    SetTwice(t, key, M.FRESH.(lastSeen := now), M.FRESH);
  }

  lemma AllowIs(t: M.Table, key: string, now: int, policy: Policy, v: M.Entry, d: Decision)
    requires (v, d) == M.Decide(Found(t, key, now)[key], now, policy.Normalize())
    ensures M.Allow(t, key, now, policy) == (Found(t, key, now)[key := v], d)
  {
    SetTwice(t, key, Found(t, key, now)[key], v);
  }

  /** What is left of an ascending log after pruning is what lies in the window. */
  lemma PruneCounts(hits: seq<int>, cutoff: int)
    requires SlidingWindow.Ascending(hits)
    ensures |SlidingWindow.Prune(hits, cutoff)| == SlidingWindow.CountAfter(hits, cutoff)
  {
    SlidingWindow.PruneShape(hits, cutoff);
    F.PruneSuffix(hits, hits, cutoff, cutoff);
  }

  lemma PeekIs(t: M.Table, key: string, now: int, policy: Policy, v: M.Entry)
    requires key in t && v == t[key].(hits := SlidingWindow.Prune(t[key].hits, now - policy.Normalize().window))
    ensures M.Peek(t, key, now, policy) == (t[key := v], |v.hits|, true)
  {
  }

  /** What a proof keeps about the table: its value, whose entry or array an object is, and all of
      them. */
  datatype Book = Book(table: M.Table, home: map<object, string>, repr: set<object>) {
    function Note(key: string, o: object): Book {
      Book(table, home[o := key], repr + {o})
    }

    function Set(key: string, v: M.Entry): Book {
      this.(table := table[key := v])
    }
  }

  /** The table of entries, driven by one caller at a time (Eviction.dfy treats concurrent ones). */
  class MemoryLimiter {
    var entries: map<string, MemEntry>
    const minTTL: int
    var evictions: nat

    ghost var book: Book

    /** An entry and its array belong to one key, and the array fits the log. */
    ghost predicate Fits(k: string)
      reads this`entries, this`book, book.repr
    {
      k in entries ==>
        && entries[k] in book.repr && entries[k] in book.home && book.home[entries[k]] == k
        && entries[k].hits in book.repr && entries[k].hits in book.home && book.home[entries[k].hits] == k
        && entries[k].Valid() && k in book.table && entries[k].Value() == book.table[k]
    }

    /** No two keys share an entry or a backing array, every array fits its log, and the book's table
        is what the entries amount to. */
    ghost predicate Valid()
      reads this`entries, this`book, book.repr
    {
      this !in book.repr && book.table.Keys == entries.Keys && forall k :: Fits(k)
    }

    /** A burst does not pin memory: whatever has happened to the limiter, the array of every key is
        within four times what it holds, once that is above sixteen hits. */
    lemma SpaceIsBounded(k: string)
      requires Valid() && k in entries
      ensures k in book.table && entries[k].len == |book.table[k].hits|
      ensures entries[k].hits.Length <= 64 || entries[k].hits.Length <= 4 * |book.table[k].hits|
    {
      assert Fits(k);
    }

    constructor (minTTL: int)
      ensures Valid() && book.repr == {} && book.table == map[] && evictions == 0 && this.minTTL == minTTL
    {
      entries, book, evictions := map[], Book(map[], map[], {}), 0;
      this.minTTL := minTTL;
    }

    /** Takes note of what has become of an entry. */
    ghost method Settle(key: string, e: MemEntry)
      requires this !in book.repr && book.table.Keys == entries.Keys && forall k :: k != key ==> Fits(k)
      requires key in entries && entries[key] == e && e in book.home && book.home[e] == key && e in book.repr
      requires e.Valid() && (e.hits in book.home ==> book.home[e.hits] == key)
      modifies this`book
      ensures Valid() && book == old(book).Note(key, e.hits).Set(key, e.Value())
    {
      book := book.Note(key, e.hits).Set(key, e.Value());
      forall k ensures Fits(k) {
        assert k != key ==> old(Fits(k));
      }
    }

    /** LoadOrStore: the entry of a key, made if there is none. */
    method LoadOrStore(key: string) returns (e: MemEntry)
      requires Valid()
      modifies this`entries, this`book
      ensures Valid() && fresh(book.repr - old(book.repr))
      ensures key in entries && entries[key] == e
      ensures book.table == if key in old(book.table) then old(book.table) else old(book.table)[key := M.FRESH]
    {
      if key in entries { return entries[key]; }
      e := new MemEntry();
      entries := entries[key := e];
      book := book.Note(key, e).Note(key, e.hits).Set(key, M.FRESH);
      forall k ensures Fits(k) {
        assert old(Fits(k));
      }
    }

    /** CompareAndDelete, with one caller at a time. */
    method Delete(key: string)
      requires Valid()
      modifies this`entries, this`book
      ensures Valid() && book == old(book).(table := old(book.table) - {key}) && entries == old(entries) - {key}
    {
      entries := entries - {key};
      book := book.(table := book.table - {key});
      forall k ensures Fits(k) {
        assert old(Fits(k));
      }
    }

    /** Stores when a key was last seen. */
    method Seen(key: string, e: MemEntry, now: int)
      requires Valid() && key in entries && entries[key] == e
      modifies this`book, e`lastSeen
      ensures Valid() && book.repr == old(book.repr)
      ensures book.table == old(book.table)[key := old(book.table)[key].(lastSeen := now)]
    {
      assert Fits(key);
      e.lastSeen := now;
      forall k | k != key ensures Fits(k) {
        assert old(Fits(k));
      }
      Settle(key, e);
    }

    /** One lookup of Allow. */
    method Lookup(key: string, now: int) returns (e: MemEntry)
      requires Valid()
      modifies this`entries, this`book, book.repr
      ensures Valid() && fresh(book.repr - old(book.repr)) && key in entries && entries[key] == e
      ensures book.table == Stamped(old(book.table), key, now)
    {
      e := LoadOrStore(key);
      assert Fits(key);
      SetTwice(old(book.table), key, book.table[key], book.table[key].(lastSeen := now));
      Seen(key, e, now);
    }

    /** The lookup of Allow. An entry found dead is thrown away and the lookup repeated; with one
        caller at a time the second try always finds a live entry, so the bound of eight retries is
        never reached. */
    method Acquire(key: string, now: int) returns (e: MemEntry)
      requires Valid()
      modifies this`entries, this`book, book.repr
      ensures Valid() && fresh(book.repr - old(book.repr)) && key in entries && entries[key] == e
      ensures book.table == Found(old(book.table), key, now)
    {
      ghost var before, attempt := book.table, 0;
      e := Lookup(key, now);
      FirstTry(before, key, now);
      assert Fits(key);
      while e.dead
        invariant 0 <= attempt <= 1 && Valid() && fresh(book.repr - old(book.repr))
        invariant key in entries && entries[key] == e && e.dead == book.table[key].dead
        invariant book.table == if attempt == 0 then Stamped(before, key, now) else Found(before, key, now)
        decreases 1 - attempt
      {
        SecondTry(before, key, now);
        Delete(key);
        ghost var repr := book.repr;
        attempt := attempt + 1;
        e := Lookup(key, now);
        assert book.repr - old(book.repr) <= (book.repr - repr) + (repr - old(book.repr));
        assert Fits(key);
      }
    }

    /** The section under the mutex of a key's entry. */
    method Locked(key: string, e: MemEntry, now: int, p: Policy) returns (d: Decision)
      requires Valid() && key in entries && entries[key] == e && p.Enforceable()
      modifies this`book, e, e.hits
      ensures Valid() && fresh(book.repr - old(book.repr))
      ensures (e.Value(), d) == M.Decide(old(book.table)[key], now, p) && M.Tells(d, e.Value().hits, now, p)
      ensures book.table == old(book.table)[key := e.Value()]
    {
      assert Fits(key);
      d := e.Decide(now, p);
      forall k | k != key ensures Fits(k) {
        assert old(Fits(k));
      }
      Settle(key, e);
    }

    static ghost predicate Live(t: M.Table, key: string) {
      key in t && !t[key].dead
    }

    /** Counts one request. */
    method Allow(key: string, now: int, policy: Policy) returns (d: Decision)
      requires Valid()
      modifies this`entries, this`book, book.repr
      ensures Valid() && fresh(book.repr - old(book.repr))
      ensures (book.table, d) == M.Allow(old(book.table), key, now, policy)
      ensures book.table - {key} == old(book.table) - {key}
      ensures key in book.table && !book.table[key].dead && book.table[key].lastSeen == now
      ensures var p, e := policy.Normalize(), book.table[key];
              var hits := if Live(old(book.table), key) then old(book.table)[key].hits else [];
              && M.Tells(d, e.hits, now, p) && e.window == p.window
              && e.hits == SlidingWindow.Prune(hits, now - p.window) + if d.allowed then [now] else []
    {
      var e := Acquire(key, now);
      assert Fits(key);
      d := Locked(key, e, now, policy.Normalize());
      AllowIs(old(book.table), key, now, policy, e.Value(), d);
    }

    /** Prunes the entry of a key. */
    method Trim(key: string, e: MemEntry, cutoff: int)
      requires Valid() && key in entries && entries[key] == e
      modifies this`book, e, e.hits
      ensures Valid() && fresh(book.repr - old(book.repr)) && e.len == |e.Value().hits|
      ensures e.Value() == old(book.table)[key].(hits := SlidingWindow.Prune(old(book.table)[key].hits, cutoff))
      ensures book.table == old(book.table)[key := e.Value()]
    {
      assert Fits(key);
      e.Prune(cutoff);
      forall k | k != key ensures Fits(k) {
        assert old(Fits(k));
      }
      Settle(key, e);
    }

    /** Reports the usage of a key without counting a request. */
    method Peek(key: string, now: int, policy: Policy) returns (used: nat, ok: bool)
      requires Valid()
      modifies this`book, book.repr
      ensures Valid() && fresh(book.repr - old(book.repr))
      ensures (book.table, used, ok) == M.Peek(old(book.table), key, now, policy)
      ensures ok <==> key in old(entries)
      ensures ok && SlidingWindow.Ascending(old(book.table)[key].hits) ==>
                used == SlidingWindow.CountAfter(old(book.table)[key].hits, now - policy.Normalize().window)
      ensures !ok ==> used == 0
    {
      if key !in entries { return 0, false; }
      var e := entries[key];
      assert Fits(key);
      Trim(key, e, now - policy.Normalize().window);
      PeekIs(old(book.table), key, now, policy, e.Value());
      if SlidingWindow.Ascending(old(book.table)[key].hits) {
        PruneCounts(old(book.table)[key].hits, now - policy.Normalize().window);
      }
      return e.len, true;
    }

    /** The janitor's section under the mutex of a key's entry. */
    method Inspect(key: string, e: MemEntry, now: int) returns (idle: bool)
      requires Valid() && key in entries && entries[key] == e
      modifies this`book, e, e.hits
      ensures Valid() && fresh(book.repr - old(book.repr))
      ensures idle == M.Idle(old(book.table)[key], now, minTTL) && (idle ==> e.dead)
      ensures book.table == old(book.table)[key := M.Visit(old(book.table)[key], now, minTTL)]
    {
      assert Fits(key);
      idle := e.Visit(now, minTTL);
      forall k | k != key ensures Fits(k) {
        assert old(Fits(k));
      }
      Settle(key, e);
    }

    /** What a janitor pass does to one key. */
    method Visit(key: string, now: int)
      requires Valid() && key in entries
      modifies this`entries, this`book, this`evictions, book.repr
      ensures Valid() && fresh(book.repr - old(book.repr))
      ensures book.table == Visited(old(book.table), key, now)
      ensures evictions == old(evictions) + |old(book.table).Keys| - |book.table.Keys|
    {
      var e := entries[key];
      assert Fits(key);
      VisitedSize(book.table, key, now);
      var idle := Inspect(key, e, now);
      if idle {
        Delete(key);
        label Deleted:
        evictions := evictions + 1;
        forall k ensures Fits(k) {
          assert old@Deleted(Fits(k));
        }
      }
    }

    ghost function Visited(t: M.Table, key: string, now: int): M.Table
      requires key in t
    {
      var t' := t[key := M.Visit(t[key], now, minTTL)];
      if M.Idle(t[key], now, minTTL) then t' - {key} else t'
    }

    lemma VisitedSize(t: M.Table, key: string, now: int)
      requires key in t
      ensures |Visited(t, key, now).Keys| == |t.Keys| - if M.Idle(t[key], now, minTTL) then 1 else 0
    {
      var t' := t[key := M.Visit(t[key], now, minTTL)];
      assert t'.Keys == t.Keys && (t' - {key}).Keys == t.Keys - {key};
    }

    /** One janitor pass, visiting the keys in any order. */
    method Cleanup(now: int)
      requires Valid()
      modifies this`entries, this`book, this`evictions, book.repr
      ensures Valid() && fresh(book.repr - old(book.repr))
      ensures book.table == M.Cleanup(old(book.table), now, minTTL)
      ensures forall k :: k in book.table <==> k in old(book.table) && !Outlived(old(book.table)[k], now)
      ensures forall k :: k in book.table ==>
                book.table[k] == Trimmed(old(book.table)[k], now - old(book.table)[k].window)
      ensures evictions == old(evictions) + |set k | k in old(book.table) && Outlived(old(book.table)[k], now)|
    {
      ghost var start := book.table;
      var remaining := entries.Keys;
      while remaining != {}
        invariant Valid() && fresh(book.repr - old(book.repr))
        invariant Swept(start, book.table, remaining, now)
        invariant evictions == old(evictions) + |start.Keys| - |book.table.Keys|
        decreases remaining
      {
        var k :| k in remaining;
        SweptOne(start, book.table, remaining, k, now);
        remaining := remaining - {k};
        Visit(k, now);
      }
      SweptAll(start, book.table, now);
      CountGone(start, book.table, now, set k | k in start && Outlived(start[k], now));
    }

    /** A key is idle after two of its windows, but not before `minTTL`. */
    ghost predicate Outlived(e: M.Entry, now: int) {
      now - e.lastSeen > 2 * e.window && now - e.lastSeen > minTTL
    }

    ghost function Trimmed(e: M.Entry, cutoff: int): M.Entry {
      e.(hits := SlidingWindow.Prune(e.hits, cutoff))
    }

    /** How far a janitor pass has come. */
    ghost predicate Swept(start: M.Table, t: M.Table, remaining: set<string>, now: int) {
      && remaining <= t.Keys <= start.Keys
      && (forall k :: k in start && k !in t ==> M.Idle(start[k], now, minTTL))
      && (forall k :: k in t ==> if k in remaining then t[k] == start[k] else Survives(start[k], t[k], now))
    }

    ghost predicate Survives(before: M.Entry, after: M.Entry, now: int) {
      !M.Idle(before, now, minTTL) && after == M.Visit(before, now, minTTL)
    }

    /** Visiting one more key. */
    lemma SweptOne(start: M.Table, t: M.Table, remaining: set<string>, k: string, now: int)
      requires Swept(start, t, remaining, now) && k in remaining
      ensures k in t && Swept(start, Visited(t, k, now), remaining - {k}, now)
    {
      var t' := t[k := M.Visit(t[k], now, minTTL)];
      assert t'.Keys == t.Keys && (t' - {k}).Keys == t.Keys - {k};
    }

    lemma OutlivedIsIdle(e: M.Entry, now: int)
      ensures M.Idle(e, now, minTTL) <==> Outlived(e, now)
      ensures !Outlived(e, now) ==> M.Visit(e, now, minTTL) == Trimmed(e, now - e.window)
    {
    }

    /** Which keys a finished pass has left, and how. */
    lemma SweptAll(start: M.Table, t: M.Table, now: int)
      requires Swept(start, t, {}, now)
      ensures t == M.Cleanup(start, now, minTTL)
      ensures forall k :: k in t <==> k in start && !Outlived(start[k], now)
      ensures forall k :: k in t ==> t[k] == Trimmed(start[k], now - start[k].window)
    {
      forall k | k in start ensures k in t <==> !Outlived(start[k], now) {
        OutlivedIsIdle(start[k], now);
      }
      forall k | k in t ensures t[k] == Trimmed(start[k], now - start[k].window) {
        OutlivedIsIdle(start[k], now);
      }
    }

    lemma CountGone(start: M.Table, t: M.Table, now: int, gone: set<string>)
      requires t.Keys <= start.Keys && forall k :: k in t <==> k in start && !Outlived(start[k], now)
      requires gone == set k | k in start && Outlived(start[k], now)
      ensures |gone| == |start.Keys| - |t.Keys|
    {
      assert gone == start.Keys - t.Keys;
    }

    /** Marks an entry dead. */
    method Bury(key: string, e: MemEntry)
      requires Valid() && key in entries && entries[key] == e
      modifies this`book, e`dead
      ensures Valid() && book.repr == old(book.repr) && e.dead
      ensures book.table == old(book.table)[key := old(book.table)[key].(dead := true)]
    {
      assert Fits(key);
      e.dead := true;
      forall k | k != key ensures Fits(k) {
        assert old(Fits(k));
      }
      Settle(key, e);
    }

    /** Drops all tracked state, and leaves every entry dead for whoever still holds it. */
    method Reset()
      requires Valid()
      modifies this`entries, this`book, book.repr
      ensures Valid() && book.repr == old(book.repr) && book.table == map[]
      ensures forall k :: k in old(entries) ==> old(entries)[k].dead
    {
      ghost var before := entries;
      while entries != map[]
        invariant Valid() && book.repr == old(book.repr)
        invariant forall k :: k in entries ==> k in before && entries[k] == before[k]
        invariant forall k :: k in before && k !in entries ==> before[k].dead
        decreases entries.Keys
      {
        var k :| k in entries;
        var e := entries[k];
        assert Fits(k);
        Bury(k, e);
        Delete(k);
      }
    }
  }
}
