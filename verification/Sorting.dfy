/** Stable sorting of vectors by a comparison, as `sort_by` does it. */
module Sorting {
  /** A strict weak order: ties are allowed, and tie-ing is transitive. */
  ghost predicate WeakOrder<T(!new)>(less: (T, T) -> bool) {
    (forall a, b :: less(a, b) ==> !less(b, a)) &&
    (forall a, b, c :: !less(a, b) && !less(b, c) ==> !less(a, c))
  }

  ghost predicate SortedBy<T>(less: (T, T) -> bool, s: seq<T>) {
    forall i, j :: 0 <= i < j < |s| ==> !less(s[j], s[i])
  }

  /** Puts x in front of the first element that is not below it, so x stays before its ties. */
  function Insert<T>(less: (T, T) -> bool, x: T, s: seq<T>): seq<T> {
    if s == [] || !less(s[0], x) then [x] + s else [s[0]] + Insert(less, x, s[1..])
  }

  function Sort<T>(less: (T, T) -> bool, s: seq<T>): seq<T> {
    if s == [] then [] else Insert(less, s[0], Sort(less, s[1..]))
  }

  lemma {:induction false} InsertPermutes<T>(less: (T, T) -> bool, x: T, s: seq<T>)
    ensures multiset(Insert(less, x, s)) == multiset(s) + multiset{x}
  {
    if s != [] && less(s[0], x) {
      InsertPermutes(less, x, s[1..]);
      assert s == [s[0]] + s[1..];
    }
  }

  lemma {:induction false} SortPermutes<T>(less: (T, T) -> bool, s: seq<T>)
    ensures multiset(Sort(less, s)) == multiset(s)
    ensures |Sort(less, s)| == |s|
    ensures forall x :: x in Sort(less, s) <==> x in s
  {
    if s != [] {
      SortPermutes(less, s[1..]);
      InsertPermutes(less, s[0], Sort(less, s[1..]));
      assert s == [s[0]] + s[1..];
    }
    SamePermutation(Sort(less, s), s);
  }

  lemma SamePermutation<T>(a: seq<T>, b: seq<T>)
    requires multiset(a) == multiset(b)
    ensures |a| == |b|
    ensures forall x :: x in a <==> x in b
  {
    assert |multiset(a)| == |a| && |multiset(b)| == |b|;
    forall x ensures x in a <==> x in b {
      assert x in a <==> x in multiset(a);
      assert x in b <==> x in multiset(b);
    }
  }

  lemma Pull<T>(a: seq<T>, x: T) returns (rest: seq<T>)
    requires x in a
    ensures multiset([x] + rest) == multiset(a)
  {
    var i :| 0 <= i < |a| && a[i] == x;
    rest := a[..i] + a[i + 1..];
    assert a == a[..i] + [x] + a[i + 1..];
  }

  lemma {:induction false} InsertSorts<T(!new)>(less: (T, T) -> bool, x: T, s: seq<T>)
    requires WeakOrder(less) && SortedBy(less, s)
    ensures SortedBy(less, Insert(less, x, s))
  {
    if s != [] && less(s[0], x) {
      var rest := Insert(less, x, s[1..]);
      InsertSorts(less, x, s[1..]);
      InsertPermutes(less, x, s[1..]);
      forall j | 0 <= j < |rest| ensures !less(rest[j], s[0]) {
        assert rest[j] in multiset(rest);
        assert rest[j] == x || rest[j] in s[1..];
      }
    }
  }

  lemma {:induction false} SortSorts<T(!new)>(less: (T, T) -> bool, s: seq<T>)
    requires WeakOrder(less)
    ensures SortedBy(less, Sort(less, s))
  {
    if s != [] {
      SortSorts(less, s[1..]);
      InsertSorts(less, s[0], Sort(less, s[1..]));
    }
  }

  ghost predicate StrictlySorted<T>(less: (T, T) -> bool, s: seq<T>) {
    forall i, j :: 0 <= i < j < |s| ==> less(s[i], s[j])
  }

  /** A strictly sorted sequence is determined by its elements. */
  lemma {:induction false} StrictlySortedUnique<T(!new)>(less: (T, T) -> bool, a: seq<T>, b: seq<T>)
    requires forall x, y :: less(x, y) ==> !less(y, x)
    requires StrictlySorted(less, a) && StrictlySorted(less, b)
    requires forall x :: x in a <==> x in b
    ensures a == b
  {
    assert forall i :: 0 <= i < |a| ==> a[i] in b;
    assert forall i :: 0 <= i < |b| ==> b[i] in a;
    if a != [] && b != [] {
      assert a[0] in b && b[0] in a;
      assert a[0] == b[0];
      forall x ensures x in a[1..] <==> x in b[1..] {
        assert x in a <==> x == a[0] || x in a[1..];
        assert x in b <==> x == b[0] || x in b[1..];
      }
      StrictlySortedUnique(less, a[1..], b[1..]);
    }
  }

  function Filter<T>(keep: T -> bool, s: seq<T>): seq<T> {
    if s == [] then []
    else if keep(s[0]) then [s[0]] + Filter(keep, s[1..])
    else Filter(keep, s[1..])
  }

  lemma FilterStep<T>(keep: T -> bool, x: T, s: seq<T>)
    ensures Filter(keep, [x] + s) == (if keep(x) then [x] else []) + Filter(keep, s)
  {
    assert ([x] + s)[1..] == s;
  }

  lemma {:induction false} InsertFiltered<T>(less: (T, T) -> bool, keep: T -> bool, x: T, s: seq<T>)
    requires forall y :: y in s && keep(x) && keep(y) ==> !less(y, x)
    ensures Filter(keep, Insert(less, x, s)) == (if keep(x) then [x] else []) + Filter(keep, s)
  {
    if s != [] && less(s[0], x) {
      assert s[0] in s && !(keep(x) && keep(s[0]));
      InsertFiltered(less, keep, x, s[1..]);
      FilterStep(keep, s[0], Insert(less, x, s[1..]));
    } else {
      FilterStep(keep, x, s);
    }
  }

  /** Sorting leaves elements that tie with each other in the order in which they came. */
  lemma {:induction false} SortStable<T>(less: (T, T) -> bool, keep: T -> bool, s: seq<T>)
    requires forall x, y :: x in s && y in s && keep(x) && keep(y) ==> !less(x, y)
    ensures Filter(keep, Sort(less, s)) == Filter(keep, s)
  {
    if s != [] {
      assert s[0] in s && forall x :: x in s[1..] ==> x in s;
      SortStable(less, keep, s[1..]);
      var rest := Sort(less, s[1..]);
      SortPermutes(less, s[1..]);
      forall y | y in rest && keep(s[0]) && keep(y) ensures !less(y, s[0]) {
        assert y in multiset(rest) && y in multiset(s[1..]);
        assert y in s;
      }
      InsertFiltered(less, keep, s[0], rest);
    }
  }
}
