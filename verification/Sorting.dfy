/** What the program relies on its library's sort for (Go's sort.Slice), by insertion. */
module Sorting {

  ghost predicate Ordered<T>(s: seq<T>, less: (T, T) -> bool) {
    forall i, j :: 0 <= i < j < |s| ==> !less(s[j], s[i])
  }

  ghost predicate NoDuplicates<T>(s: seq<T>) {
    forall i, j :: 0 <= i < j < |s| ==> s[i] != s[j]
  }

  /** What a comparison must satisfy to sort by. */
  ghost predicate StrictWeak<T(!new)>(less: (T, T) -> bool) {
    && (forall a, b :: less(a, b) ==> !less(b, a))
    && (forall a, b, c :: !less(b, a) && !less(c, b) ==> !less(c, a))
  }

  function Insert<T>(x: T, s: seq<T>, less: (T, T) -> bool): (r: seq<T>)
    ensures |r| == |s| + 1
  {
    if s == [] || less(x, s[0]) then [x] + s else [s[0]] + Insert(x, s[1..], less)
  }

  function Sort<T>(s: seq<T>, less: (T, T) -> bool): (r: seq<T>)
    ensures |r| == |s|
  {
    if s == [] then [] else Insert(s[0], Sort(s[1..], less), less)
  }

  lemma {:induction false} InsertHolds<T>(x: T, s: seq<T>, less: (T, T) -> bool, y: T)
    ensures y in Insert(x, s, less) <==> y == x || y in s
  {
    if s != [] && !less(x, s[0]) {
      InsertHolds(x, s[1..], less, y);
      assert s == [s[0]] + s[1..];
    }
  }

  lemma {:induction false} InsertOrdered<T(!new)>(x: T, s: seq<T>, less: (T, T) -> bool)
    requires StrictWeak(less) && Ordered(s, less)
    ensures Ordered(Insert(x, s, less), less)
  {
    if s != [] && !less(x, s[0]) {
      var rest := Insert(x, s[1..], less);
      InsertOrdered(x, s[1..], less);
      forall i | 0 <= i < |rest| ensures !less(rest[i], s[0]) {
        InsertHolds(x, s[1..], less, rest[i]);
      }
    } else if s != [] {
      forall j | 0 <= j < |s| ensures !less(s[j], x) {
        assert !less(s[0], x);
        assert j > 0 ==> !less(s[j], s[0]);
      }
    }
  }

  lemma {:induction false} InsertDistinct<T>(x: T, s: seq<T>, less: (T, T) -> bool)
    requires NoDuplicates(s) && x !in s
    ensures NoDuplicates(Insert(x, s, less))
  {
    if s != [] && !less(x, s[0]) {
      InsertDistinct(x, s[1..], less);
      InsertHolds(x, s[1..], less, s[0]);
    }
  }

  /** The result is a rearrangement of the input, in order. */
  lemma {:induction false} SortSorts<T(!new)>(s: seq<T>, less: (T, T) -> bool)
    requires StrictWeak(less) && NoDuplicates(s)
    ensures Ordered(Sort(s, less), less) && NoDuplicates(Sort(s, less))
    ensures forall y :: y in Sort(s, less) <==> y in s
  {
    if s != [] {
      SortSorts(s[1..], less);
      InsertOrdered(s[0], Sort(s[1..], less), less);
      InsertDistinct(s[0], Sort(s[1..], less), less);
      forall y ensures y in Sort(s, less) <==> y in s {
        InsertHolds(s[0], Sort(s[1..], less), less, y);
        assert s == [s[0]] + s[1..];
      }
    }
  }
}
