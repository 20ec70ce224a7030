/** Insertion sort by a strict order: what `sorted` and `list.sort` return. */
module Sorting {

  /** `x` goes before the first element that it is less than, so that equal elements keep their order. */
  function Insert<T>(x: T, xs: seq<T>, less: (T, T) -> bool): (r: seq<T>)
    ensures multiset(r) == multiset(xs) + multiset{x}
    ensures |r| == |xs| + 1
  {
    if xs == [] || less(x, xs[0]) then
      assert [x] + xs == [x] + xs;
      [x] + xs
    else
      assert xs == [xs[0]] + xs[1..];
      [xs[0]] + Insert(x, xs[1..], less)
  }

  function Sort<T>(xs: seq<T>, less: (T, T) -> bool): (r: seq<T>)
    ensures multiset(r) == multiset(xs)
    ensures |r| == |xs|
  {
    if xs == [] then []
    else
      assert xs == xs[..|xs| - 1] + [xs[|xs| - 1]];
      Insert(xs[|xs| - 1], Sort(xs[..|xs| - 1], less), less)
  }

  lemma SortMembers<T>(xs: seq<T>, less: (T, T) -> bool, x: T)
    ensures x in Sort(xs, less) <==> x in xs
  {
    assert x in Sort(xs, less) <==> x in multiset(Sort(xs, less));
    assert x in xs <==> x in multiset(xs);
  }

  /** No element is less than an earlier one. */
  ghost predicate Ordered<T>(xs: seq<T>, less: (T, T) -> bool)
  {
    forall i, j :: 0 <= i < j < |xs| ==> !less(xs[j], xs[i])
  }

  ghost predicate StrictOrder<T(!new)>(less: (T, T) -> bool)
  {
    && (forall a, b :: less(a, b) ==> !less(b, a))
    && (forall a, b, c :: !less(b, a) && !less(c, b) ==> !less(c, a))
  }

  lemma {:induction false} InsertOrdered<T(!new)>(x: T, xs: seq<T>, less: (T, T) -> bool)
    requires StrictOrder(less) && Ordered(xs, less)
    ensures Ordered(Insert(x, xs, less), less)
  {
    if xs != [] {
      if less(x, xs[0]) {
        forall k | 0 <= k < |xs| ensures !less(xs[k], x) { assert !less(xs[0], x); }
      } else {
        InsertOrdered(x, xs[1..], less);
        var tail := Insert(x, xs[1..], less);
        forall y | y in tail ensures !less(y, xs[0]) {
          assert y in multiset(tail);
          if y != x {
            assert y in xs[1..];
            var k :| 0 <= k < |xs[1..]| && xs[1..][k] == y;
          }
        }
      }
    }
  }

  lemma {:induction false} SortOrdered<T(!new)>(xs: seq<T>, less: (T, T) -> bool)
    requires StrictOrder(less)
    ensures Ordered(Sort(xs, less), less)
  {
    hide StrictOrder;
    if xs != [] {
      SortOrdered(xs[..|xs| - 1], less);
      InsertOrdered(xs[|xs| - 1], Sort(xs[..|xs| - 1], less), less);
    }
  }

  /** What holds between any two elements. */
  ghost predicate Pairwise<T>(xs: seq<T>, apart: (T, T) -> bool)
  {
    forall i, j :: 0 <= i < |xs| && 0 <= j < |xs| && i != j ==> apart(xs[i], xs[j])
  }

  lemma {:induction false} InsertPairwise<T>(x: T, xs: seq<T>, less: (T, T) -> bool, apart: (T, T) -> bool)
    requires Pairwise(xs, apart) && forall y :: y in xs ==> apart(x, y) && apart(y, x)
    ensures Pairwise(Insert(x, xs, less), apart)
  {
    if xs != [] && !less(x, xs[0]) {
      InsertPairwise(x, xs[1..], less, apart);
      var tail := Insert(x, xs[1..], less);
      forall y | y in tail ensures apart(xs[0], y) && apart(y, xs[0]) {
        assert y in multiset(tail);
        if y != x {
          assert y in xs[1..];
          var k :| 0 <= k < |xs[1..]| && xs[1..][k] == y;
          assert apart(xs[0], xs[k + 1]) && apart(xs[k + 1], xs[0]);
        } else {
          assert xs[0] in xs;
        }
      }
    }
  }

  /** Sorting keeps what holds between any two elements. */
  lemma {:induction false} SortPairwise<T>(xs: seq<T>, less: (T, T) -> bool, apart: (T, T) -> bool)
    requires Pairwise(xs, apart)
    ensures Pairwise(Sort(xs, less), apart)
  {
    if xs != [] {
      var n := |xs| - 1;
      SortPairwise(xs[..n], less, apart);
      forall y | y in Sort(xs[..n], less) ensures apart(xs[n], y) && apart(y, xs[n]) {
        SortMembers(xs[..n], less, y);
        var k :| 0 <= k < n && xs[..n][k] == y;
        assert apart(xs[n], xs[k]) && apart(xs[k], xs[n]);
      }
      InsertPairwise(xs[n], Sort(xs[..n], less), less, apart);
    }
  }
}
