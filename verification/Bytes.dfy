/** Byte strings, Python's ordering of them, and the sorts the builders rely on. */
module Bytes {
  import Sorting

  type byte = x: int | 0 <= x < 256
  type bytes = seq<byte>

  const NUL: byte := 0
  const SLASH: byte := 47
  const DOT: byte := 46

  /** Strict lexicographic order, the order of Python `bytes`. */
  predicate Below(a: bytes, b: bytes)
  {
    b != [] && (a == [] || a[0] < b[0] || (a[0] == b[0] && Below(a[1..], b[1..])))
  }

  lemma {:induction false} BelowIrreflexive(a: bytes)
    ensures !Below(a, a)
  {
    if a != [] { BelowIrreflexive(a[1..]); }
  }

  lemma {:induction false} BelowTransitive(a: bytes, b: bytes, c: bytes)
    requires Below(a, b) && Below(b, c)
    ensures Below(a, c)
  {
    if a != [] && a[0] == b[0] == c[0] { BelowTransitive(a[1..], b[1..], c[1..]); }
  }

  lemma {:induction false} BelowTotal(a: bytes, b: bytes)
    ensures Below(a, b) || a == b || Below(b, a)
  {
    if a != [] && b != [] && a[0] == b[0] {
      BelowTotal(a[1..], b[1..]);
      assert a == [a[0]] + a[1..] && b == [b[0]] + b[1..];
    }
  }

  /** `a` comes before `b` if it is a proper prefix, or smaller at the first difference. */
  lemma {:induction false} BelowMeans(a: bytes, b: bytes)
    ensures Below(a, b) <==> exists k :: 0 <= k <= |a| && k < |b| && a[..k] == b[..k] && (k == |a| || a[k] < b[k])
  {
    if Below(a, b) && a != [] && a[0] == b[0] {
      BelowMeans(a[1..], b[1..]);
      var k :| 0 <= k <= |a[1..]| && k < |b[1..]| && a[1..][..k] == b[1..][..k]
        && (k == |a[1..]| || a[1..][k] < b[1..][k]);
      assert a[..k + 1] == [a[0]] + a[1..][..k] && b[..k + 1] == [b[0]] + b[1..][..k];
    } else if Below(a, b) {
      assert a[..0] == b[..0];
    }
    if exists k :: 0 <= k <= |a| && k < |b| && a[..k] == b[..k] && (k == |a| || a[k] < b[k]) {
      var k :| 0 <= k <= |a| && k < |b| && a[..k] == b[..k] && (k == |a| || a[k] < b[k]);
      if k > 0 {
        assert a[..k][0] == b[..k][0];
        assert a[1..][..k - 1] == a[..k][1..] && b[1..][..k - 1] == b[..k][1..];
        BelowMeans(a[1..], b[1..]);
      }
    }
  }

  /** A path sorts before everything that extends it: a directory before its contents. */
  lemma {:induction false} PrefixBelow(a: bytes, b: bytes)
    requires a <= b && a != b
    ensures Below(a, b)
  {
    if a != [] {
      assert a[1..] <= b[1..];
      assert a == [a[0]] + a[1..] && b == [b[0]] + b[1..];
      PrefixBelow(a[1..], b[1..]);
    }
  }

  /** A keyed item: Python sorts these with `key=`. */
  datatype Keyed<T> = Keyed(key: bytes, item: T)

  ghost predicate Ascending<T>(xs: seq<Keyed<T>>)
  {
    forall i, j :: 0 <= i < j < |xs| ==> Below(xs[i].key, xs[j].key)
  }

  ghost predicate DistinctKeys<T>(xs: seq<Keyed<T>>)
  {
    forall i, j :: 0 <= i < j < |xs| ==> xs[i].key != xs[j].key
  }

  predicate KeyBelow<T>(x: Keyed<T>, y: Keyed<T>) { Below(x.key, y.key) }

  predicate KeyApart<T>(x: Keyed<T>, y: Keyed<T>) { x.key != y.key }

  function Insert<T>(x: Keyed<T>, xs: seq<Keyed<T>>): (r: seq<Keyed<T>>)
    ensures multiset(r) == multiset(xs) + multiset{x}
    ensures |r| == |xs| + 1
  {
    Sorting.Insert(x, xs, KeyBelow)
  }

  /** `sorted(..., key=...)`. */
  function Sort<T>(xs: seq<Keyed<T>>): (r: seq<Keyed<T>>)
    ensures multiset(r) == multiset(xs)
    ensures |r| == |xs|
  {
    Sorting.Sort(xs, KeyBelow)
  }

  lemma KeyOrder<T(!new)>()
    ensures Sorting.StrictOrder<Keyed<T>>(KeyBelow)
  {
    forall a: Keyed<T>, b: Keyed<T> | KeyBelow(a, b) ensures !KeyBelow(b, a) { BelowOnce(a.key, b.key); }
    forall a: Keyed<T>, b: Keyed<T>, c: Keyed<T> | !KeyBelow(b, a) && !KeyBelow(c, b) ensures !KeyBelow(c, a) {
      NotBelowTransitive(a.key, b.key, c.key);
    }
  }

  lemma BelowOnce(a: bytes, b: bytes)
    requires Below(a, b)
    ensures !Below(b, a)
  {
    if Below(b, a) {
      BelowTransitive(a, b, a);
      BelowIrreflexive(a);
    }
  }

  lemma NotBelowTransitive(a: bytes, b: bytes, c: bytes)
    requires !Below(b, a) && !Below(c, b)
    ensures !Below(c, a)
  {
    BelowTotal(a, b);
    BelowTotal(b, c);
    if Below(c, a) {
      if a != b { BelowTransitive(c, a, b); }
    }
  }

  lemma AscendingIff<T>(xs: seq<Keyed<T>>)
    ensures Ascending(xs) <==> Sorting.Ordered(xs, KeyBelow) && Sorting.Pairwise(xs, KeyApart)
  {
    forall i, j | 0 <= i < j < |xs|
      ensures Below(xs[i].key, xs[j].key) <==> !Below(xs[j].key, xs[i].key) && xs[i].key != xs[j].key
    {
      BelowTotal(xs[i].key, xs[j].key);
      BelowIrreflexive(xs[i].key);
      if Below(xs[i].key, xs[j].key) { BelowOnce(xs[i].key, xs[j].key); }
    }
    hide Below;
  }

  lemma InsertAscending<T(!new)>(x: Keyed<T>, xs: seq<Keyed<T>>)
    requires Ascending(xs)
    requires forall y :: y in xs ==> y.key != x.key
    ensures Ascending(Insert(x, xs))
  {
    KeyOrder<T>();
    AscendingIff(xs);
    Sorting.InsertOrdered(x, xs, KeyBelow);
    Sorting.InsertPairwise(x, xs, KeyBelow, KeyApart);
    AscendingIff(Insert(x, xs));
  }

  lemma SortAscending<T(!new)>(xs: seq<Keyed<T>>)
    requires DistinctKeys(xs)
    ensures Ascending(Sort(xs))
  {
    KeyOrder<T>();
    Sorting.SortOrdered(xs, KeyBelow);
    Sorting.SortPairwise(xs, KeyBelow, KeyApart);
    AscendingIff(Sort(xs));
  }

  /** Two ascending lists with the same members are the same list. */
  lemma {:induction false} AscendingUnique<T>(xs: seq<Keyed<T>>, ys: seq<Keyed<T>>)
    requires Ascending(xs) && Ascending(ys)
    requires forall x :: x in xs <==> x in ys
    ensures xs == ys
  {
    assert ys == [] || ys[|ys| - 1] in ys;
    assert xs == [] || xs[|xs| - 1] in xs;
    if xs != [] {
      assert xs[0] in xs;
      assert ys[0] in ys;
      var i :| 0 <= i < |ys| && ys[i] == xs[0];
      var j :| 0 <= j < |xs| && xs[j] == ys[0];
      if xs[0] != ys[0] {
        BelowTransitive(xs[0].key, ys[0].key, xs[0].key);
        BelowIrreflexive(xs[0].key);
        assert false;
      }
      forall x ensures x in xs[1..] <==> x in ys[1..] {
        TailMember(xs, x);
        TailMember(ys, x);
      }
      AscendingUnique(xs[1..], ys[1..]);
      assert xs == [xs[0]] + xs[1..] && ys == [ys[0]] + ys[1..];
    }
  }

  lemma TailMember<T>(xs: seq<Keyed<T>>, x: Keyed<T>)
    requires Ascending(xs) && xs != []
    ensures x in xs[1..] <==> x in xs && x != xs[0]
  {
    if x in xs[1..] {
      var k :| 0 <= k < |xs[1..]| && xs[1..][k] == x;
      assert Below(xs[0].key, xs[k + 1].key);
      BelowIrreflexive(x.key);
    }
    assert xs == [xs[0]] + xs[1..];
  }
}
