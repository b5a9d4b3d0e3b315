/** The member ids of the Redis limiter: internal/limiter/redis.go, `member`. */
module Members {

  const BASE := 36
  const COUNTER_RANGE := 0x1_0000_0000_0000_0000

  function Digit(d: nat): (c: char)
    requires d < BASE
    ensures c != '-'
  {
    if d < 10 then '0' + d as char else 'a' + (d - 10) as char
  }

  /** strconv.FormatInt(n, 36) of a nonnegative number. */
  function Base36(n: nat): (s: string)
    ensures s != [] && '-' !in s
  {
    if n < BASE then [Digit(n)] else Base36(n / BASE) + [Digit(n % BASE)]
  }

  lemma DigitInjective(d: nat, d': nat)
    requires d < BASE && d' < BASE && Digit(d) == Digit(d')
    ensures d == d'
  {
  }

  lemma Base36Parts(n: nat)
    ensures var s := Base36(n);
            && s[|s| - 1] == Digit(n % BASE)
            && (n < BASE <==> |s| == 1)
            && (n >= BASE ==> s[..|s| - 1] == Base36(n / BASE))
  {
  }

  /** Distinct numbers print differently. */
  lemma {:induction false} Base36Injective(m: nat, n: nat)
    requires Base36(m) == Base36(n)
    ensures m == n
  {
    Base36Parts(m);
    Base36Parts(n);
    DigitInjective(m % BASE, n % BASE);
    if m >= BASE {
      Base36Injective(m / BASE, n / BASE);
      assert m == m / BASE * BASE + m % BASE && n == n / BASE * BASE + n % BASE;
    }
  }

  /** instance-time-counter, time and counter in base 36. */
  function Render(instance: string, nanos: nat, counter: nat): string {
    instance + "-" + (Base36(nanos) + "-" + Base36(counter))
  }

  /** Two texts without dashes can be told apart by what precedes the first dash. */
  lemma SplitAtDash(a: string, x: string, b: string, y: string)
    requires '-' !in a && '-' !in b
    requires a + "-" + x == b + "-" + y
    ensures a == b && x == y
  {
    var l, r := a + "-" + x, b + "-" + y;
    assert l[|a|] == '-' && r[|b|] == '-';
    assert |a| == |b|;
    assert l[..|a|] == a && r[..|b|] == b;
    assert l[|a| + 1..] == x && r[|b| + 1..] == y;
  }

  /** The three parts of a member id can be read back. */
  lemma RenderInjective(instance: string, nanos: nat, counter: nat, instance': string, nanos': nat, counter': nat)
    requires '-' !in instance && '-' !in instance'
    requires Render(instance, nanos, counter) == Render(instance', nanos', counter')
    ensures instance == instance' && nanos == nanos' && counter == counter'
  {
    SplitAtDash(instance, Base36(nanos) + "-" + Base36(counter), instance', Base36(nanos') + "-" + Base36(counter'));
    SplitAtDash(Base36(nanos), Base36(counter), Base36(nanos'), Base36(counter'));
    Base36Injective(nanos, nanos');
    Base36Injective(counter, counter');
  }

  // ---------------------------------------------------------------- reading an id

  function ValueOf(c: char): nat {
    if '0' <= c <= '9' then c as nat - '0' as nat else if 'a' <= c <= 'z' then c as nat - 'a' as nat + 10 else 0
  }

  /** The number a numeral in base 36 stands for. */
  function Value(s: string): nat {
    if s == "" then 0 else 36 * Value(s[..|s| - 1]) + ValueOf(s[|s| - 1])
  }

  lemma {:induction false} Base36Reads(n: nat)
    ensures Value(Base36(n)) == n
    ensures n > 0 ==> Base36(n)[0] != '0'
  {
    Base36Parts(n);
    var s := Base36(n);
    if n >= BASE {
      Base36Reads(n / BASE);
      assert n == n / BASE * BASE + n % BASE;
      assert s[0] == s[..|s| - 1][0];
    } else {
      assert Value(s[..0]) == 0;
    }
  }

  /** The parts of a text between its dashes. */
  function Fields(s: string): (parts: seq<string>)
    ensures parts != []
  {
    if s == "" then [""]
    else
      var rest := Fields(s[1..]);
      if s[0] == '-' then [""] + rest else [[s[0]] + rest[0]] + rest[1..]
  }

  lemma {:induction false} LastField(a: string)
    requires '-' !in a
    ensures Fields(a) == [a]
  {
    if a != "" {
      LastField(a[1..]);
      assert [a[0]] + a[1..] == a;
    }
  }

  lemma {:induction false} FirstField(a: string, rest: string)
    requires '-' !in a
    ensures Fields(a + "-" + rest) == [a] + Fields(rest)
  {
    var s := a + "-" + rest;
    if a == "" {
      assert s[1..] == rest;
    } else {
      FirstField(a[1..], rest);
      assert s[1..] == a[1..] + "-" + rest;
      assert [a[0]] + a[1..] == a;
    }
  }

  /** An id tells, in this order, the instance, the time and the counter. */
  ghost predicate Tells(id: string, instance: string, nanos: nat, counter: nat) {
    var parts := Fields(id);
    |parts| == 3 && parts[0] == instance && Value(parts[1]) == nanos && Value(parts[2]) == counter
  }

  lemma RenderTells(instance: string, nanos: nat, counter: nat)
    requires '-' !in instance
    ensures Tells(Render(instance, nanos, counter), instance, nanos, counter)
  {
    FirstField(instance, Base36(nanos) + "-" + Base36(counter));
    FirstField(Base36(nanos), Base36(counter));
    LastField(Base36(counter));
    Base36Reads(nanos);
    Base36Reads(counter);
  }

  /** The part of the limiter that names its requests. */
  class MemberSource {
    const instance: string
    var counter: nat // atomic.Uint64

    constructor (instance: string)
      ensures this.instance == instance && counter == 0
    {
      this.instance := instance;
      counter := 0;
    }

    method Member(nanos: nat) returns (m: string)
      modifies this
      ensures counter == (old(counter) + 1) % 0x1_0000_0000_0000_0000
      ensures m == Render(instance, nanos, counter)
      ensures '-' !in instance ==> Tells(m, instance, nanos, counter)
    {
      m := instance;
      m := m + "-";
      m := m + Base36(nanos);
      m := m + "-";
      counter := (counter + 1) % COUNTER_RANGE;
      m := m + Base36(counter);
      assert m == Render(instance, nanos, counter);
      if '-' !in instance { RenderTells(instance, nanos, counter); }
    }
  }

  /** A step of a run: a call that needs a name, made by an instance whose clock said `nanos`, or
      something else. */
  datatype Ask = Call(instance: string, nanos: nat) | NoCall

  /** How many calls an instance has made in the first n steps. */
  function CallsBy(run: seq<Ask>, n: nat, instance: string): nat
    requires n <= |run|
  {
    if n == 0 then 0
    else CallsBy(run, n - 1, instance) + if run[n - 1].Call? && run[n - 1].instance == instance then 1 else 0
  }

  /** The counter value that the call of step j draws, when every counter starts at zero. */
  function Ticket(run: seq<Ask>, j: nat): nat
    requires j < |run| && run[j].Call?
  {
    CallsBy(run, j + 1, run[j].instance) % COUNTER_RANGE
  }

  /** The name given to that call. */
  function NameOf(run: seq<Ask>, j: nat): string
    requires j < |run| && run[j].Call?
  {
    Render(run[j].instance, run[j].nanos, Ticket(run, j))
  }

  lemma {:induction false} CallsByGrows(run: seq<Ask>, i: nat, j: nat, instance: string)
    requires i <= j <= |run|
    ensures CallsBy(run, i, instance) <= CallsBy(run, j, instance)
    decreases j
  {
    if i < j { CallsByGrows(run, i, j - 1, instance); }
  }

  lemma NoWrap(m: nat, n: nat)
    requires 0 < m < n <= COUNTER_RANGE
    ensures m % COUNTER_RANGE != n % COUNTER_RANGE
  {
  }

  lemma CallsRise(run: seq<Ask>, i: nat, j: nat, instance: string)
    requires i < j < |run| && run[i].Call? && run[j].Call? && run[i].instance == instance == run[j].instance
    ensures 0 < CallsBy(run, i + 1, instance) < CallsBy(run, j + 1, instance) <= CallsBy(run, |run|, instance)
  {
    CallsByGrows(run, i + 1, j, instance);
    CallsByGrows(run, j + 1, |run|, instance);
  }

  lemma TicketsDiffer(run: seq<Ask>, i: nat, j: nat, instance: string, m: nat, n: nat)
    requires i < j < |run| && run[i].Call? && run[j].Call? && run[i].instance == instance == run[j].instance
    requires m == CallsBy(run, i + 1, instance) && n == CallsBy(run, j + 1, instance)
    requires 0 < m < n <= COUNTER_RANGE
    ensures Ticket(run, i) != Ticket(run, j)
  {
    NoWrap(m, n);
  }

  /** Names never collide while no instance makes more than 2^64 calls. */
  lemma NamesAreDistinct(run: seq<Ask>, i: nat, j: nat)
    requires i < j < |run| && run[i].Call? && run[j].Call?
    requires '-' !in run[i].instance && '-' !in run[j].instance
    requires CallsBy(run, |run|, run[i].instance) <= COUNTER_RANGE
    ensures NameOf(run, i) != NameOf(run, j)
  {
    if NameOf(run, i) == NameOf(run, j) {
      RenderInjective(run[i].instance, run[i].nanos, Ticket(run, i), run[j].instance, run[j].nanos, Ticket(run, j));
      var instance := run[i].instance;
      CallsRise(run, i, j, instance);
      TicketsDiffer(run, i, j, instance, CallsBy(run, i + 1, instance), CallsBy(run, j + 1, instance));
    }
  }
}
