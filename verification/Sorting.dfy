/** Sorting a slice by a comparison, as the standard library's `sort.Slice` promises it. */
module Sorting {
  ghost predicate StrictWeakOrder<T(!new)>(less: (T, T) -> bool) {
    && (forall a, b :: less(a, b) ==> !less(b, a))
    && (forall a, b, c :: !less(a, b) && !less(b, c) ==> !less(a, c))
  }

  ghost predicate SortedBy<T>(xs: seq<T>, less: (T, T) -> bool) {
    forall i, j | 0 <= i < j < |xs| :: !less(xs[j], xs[i])
  }

  ghost predicate NoDuplicates<T>(xs: seq<T>) {
    forall i, j | 0 <= i < j < |xs| :: xs[i] != xs[j]
  }

  function InsertAt<T>(xs: seq<T>, at: nat, x: T): (r: seq<T>)
    requires at <= |xs|
    ensures |r| == |xs| + 1 && r[at] == x
    ensures forall i | 0 <= i < at :: r[i] == xs[i]
    ensures forall i | at < i < |r| :: r[i] == xs[i - 1]
  {
    xs[..at] + [x] + xs[at..]
  }

  lemma InsertKeepsOrder<T(!new)>(xs: seq<T>, at: nat, x: T, less: (T, T) -> bool)
    requires at <= |xs| && StrictWeakOrder(less) && SortedBy(xs, less)
    requires at > 0 ==> !less(x, xs[at - 1])
    requires at < |xs| ==> !less(xs[at], x)
    ensures SortedBy(InsertAt(xs, at, x), less)
  {
    var r := InsertAt(xs, at, x);
    forall i, j | 0 <= i < j < |r|
      ensures !less(r[j], r[i])
    {
      if j == at && i < at - 1 {
        assert !less(xs[at - 1], xs[i]);
      } else if i == at && at + 1 < j {
        assert !less(xs[j - 1], xs[at]);
      }
    }
  }

  lemma InsertAddsOne<T>(xs: seq<T>, at: nat, x: T)
    requires at <= |xs|
    ensures forall y :: y in InsertAt(xs, at, x) <==> y in xs || y == x
    ensures multiset(InsertAt(xs, at, x)) == multiset(xs) + multiset{x}
  {
    assert xs == xs[..at] + xs[at..];
  }

  lemma InsertKeepsDistinct<T>(xs: seq<T>, at: nat, x: T)
    requires at <= |xs| && NoDuplicates(xs) && x !in xs
    ensures NoDuplicates(InsertAt(xs, at, x))
  {
    var r := InsertAt(xs, at, x);
    forall i, j | 0 <= i < j < |r|
      ensures r[i] != r[j]
    {
      if i == at {
        assert xs[j - 1] in xs;
      } else if j == at {
        assert xs[i] in xs;
      }
    }
  }

  /** Inserts `x` before the elements it is less than. */
  method Insert<T(==, !new)>(xs: seq<T>, x: T, less: (T, T) -> bool) returns (r: seq<T>)
    requires StrictWeakOrder(less) && SortedBy(xs, less)
    ensures SortedBy(r, less) && |r| == |xs| + 1
    ensures multiset(r) == multiset(xs) + multiset{x}
    ensures NoDuplicates(xs) && x !in xs ==> NoDuplicates(r)
  {
    var at := |xs|;
    while at > 0 && less(x, xs[at - 1])
      invariant 0 <= at <= |xs|
      invariant at < |xs| ==> less(x, xs[at])
    {
      at := at - 1;
    }
    InsertKeepsOrder(xs, at, x, less);
    InsertAddsOne(xs, at, x);
    if NoDuplicates(xs) && x !in xs {
      InsertKeepsDistinct(xs, at, x);
    }
    r := InsertAt(xs, at, x);
  }

  lemma SameMembers<T>(a: seq<T>, b: seq<T>)
    requires multiset(a) == multiset(b)
    ensures forall x :: x in a <==> x in b
  {
    assert forall x :: x in a <==> x in multiset(a);
    assert forall x :: x in b <==> x in multiset(b);
  }

  lemma NewToPrefix<T>(xs: seq<T>, i: nat)
    requires i < |xs| && NoDuplicates(xs)
    ensures xs[i] !in xs[..i]
  {
  }

  method Sort<T(==, !new)>(xs: seq<T>, less: (T, T) -> bool) returns (sorted: seq<T>)
    requires StrictWeakOrder(less)
    ensures SortedBy(sorted, less)
    ensures multiset(sorted) == multiset(xs) && |sorted| == |xs|
    ensures forall x :: x in sorted <==> x in xs
    ensures NoDuplicates(xs) ==> NoDuplicates(sorted)
  {
    sorted := [];
    for i := 0 to |xs|
      invariant |sorted| == i && SortedBy(sorted, less)
      invariant multiset(sorted) == multiset(xs[..i])
      invariant NoDuplicates(xs) ==> NoDuplicates(sorted)
    {
      SameMembers(sorted, xs[..i]);
      if NoDuplicates(xs) {
        NewToPrefix(xs, i);
      }
      sorted := Insert(sorted, xs[i], less);
      assert xs[..i + 1] == xs[..i] + [xs[i]];
    }
    assert xs[..|xs|] == xs;
    SameMembers(sorted, xs);
  }
}
