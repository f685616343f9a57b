/** `sorted(..., key=...)` over keys that are floats. */
module Sorting {
  import opened Floats

  /** An item moves before another only when its key is strictly smaller. */
  function Insert<T>(key: T -> Float, sorted: seq<T>, x: T): seq<T> {
    if sorted == [] then [x]
    else
      var last := sorted[|sorted| - 1];
      if Lt(key(x), key(last)) then Insert(key, sorted[..|sorted| - 1], x) + [last] else sorted + [x]
  }

  lemma {:induction false} InsertKeepsAll<T>(key: T -> Float, sorted: seq<T>, x: T)
    ensures multiset(Insert(key, sorted, x)) == multiset(sorted) + multiset{x}
    decreases |sorted|
  {
    if sorted != [] {
      var rest, last := sorted[..|sorted| - 1], sorted[|sorted| - 1];
      assert sorted == rest + [last];
      InsertKeepsAll(key, rest, x);
    }
  }

  /** A stable sort. */
  function Sort<T>(key: T -> Float, xs: seq<T>): (r: seq<T>)
    ensures multiset(r) == multiset(xs)
    decreases |xs|
  {
    if xs == [] then []
    else
      var rest, last := xs[..|xs| - 1], xs[|xs| - 1];
      assert xs == rest + [last];
      InsertKeepsAll(key, Sort(key, rest), last);
      Insert(key, Sort(key, rest), last)
  }

  predicate Ascends<T>(key: T -> Float, xs: seq<T>) {
    forall a, b | 0 <= a < b < |xs| :: !Lt(key(xs[b]), key(xs[a]))
  }

  ghost predicate AllKeyed<T>(key: T -> Float, xs: seq<T>) {
    forall x <- xs :: key(x).Num?
  }

  /** The items with one key, in order. */
  function WithKey<T>(key: T -> Float, xs: seq<T>, k: Float): seq<T> {
    if xs == [] then []
    else WithKey(key, xs[..|xs| - 1], k) + Picked(key, xs[|xs| - 1], k)
  }

  function Picked<T>(key: T -> Float, x: T, k: Float): (r: seq<T>)
    ensures r != [] ==> key(x) == k
  {
    if key(x) == k then [x] else []
  }

  lemma {:induction false} InsertKeepsOrder<T>(key: T -> Float, sorted: seq<T>, x: T)
    requires AllKeyed(key, sorted + [x]) && Ascends(key, sorted)
    ensures Ascends(key, Insert(key, sorted, x))
    decreases |sorted|
  {
    if sorted != [] {
      var rest, last := sorted[..|sorted| - 1], sorted[|sorted| - 1];
      assert x in sorted + [x] && last in sorted + [x];
      if Lt(key(x), key(last)) {
        forall y | y in rest + [x]
          ensures key(y).Num? && !Lt(key(last), key(y))
        {
          assert y in sorted + [x];
        }
        InsertKeepsOrder(key, rest, x);
        InsertKeepsAll(key, rest, x);
        var r := Insert(key, rest, x);
        forall a | 0 <= a < |r|
          ensures r[a] in rest + [x]
        {
          assert r[a] in multiset(r);
          assert r[a] in multiset(rest) + multiset{x};
        }
      }
    }
  }

  lemma {:induction false} InsertIsStable<T>(key: T -> Float, sorted: seq<T>, x: T, k: Float)
    ensures WithKey(key, Insert(key, sorted, x), k) == WithKey(key, sorted + [x], k)
    decreases |sorted|
  {
    if sorted == [] {
      assert sorted + [x] == [x];
    } else {
      var rest, last := sorted[..|sorted| - 1], sorted[|sorted| - 1];
      assert rest + [last] == sorted;
      if Lt(key(x), key(last)) {
        InsertIsStable(key, rest, x, k);
        PassesLater(key, rest, Insert(key, rest, x), x, last, k);
      }
    }
  }

  lemma {:induction false} PassesLater<T>(key: T -> Float, rest: seq<T>, r: seq<T>, x: T, last: T, k: Float)
    requires WithKey(key, r, k) == WithKey(key, rest + [x], k) && Lt(key(x), key(last))
    ensures WithKey(key, r + [last], k) == WithKey(key, rest + [last] + [x], k)
  {
    WithKeyAppend(key, rest, x, k);
    WithKeyAppend(key, rest, last, k);
    WithKeyAppend(key, rest + [last], x, k);
    WithKeyAppend(key, r, last, k);
    OneEmpty(WithKey(key, rest, k), Picked(key, x, k), Picked(key, last, k));
  }

  lemma {:induction false} OneEmpty<T>(a: seq<T>, x: seq<T>, y: seq<T>)
    requires x == [] || y == []
    ensures a + x + y == a + y + x
  {}

  lemma {:induction false} WithKeyAppend<T>(key: T -> Float, xs: seq<T>, x: T, k: Float)
    ensures WithKey(key, xs + [x], k) == WithKey(key, xs, k) + Picked(key, x, k)
  {
    assert (xs + [x])[..|xs|] == xs;
  }

  /** Keys that are all numbers come out in ascending order; items with one key keep the
      order they had. */
  lemma {:induction false} SortOrders<T>(key: T -> Float, xs: seq<T>, k: Float)
    ensures AllKeyed(key, xs) ==> Ascends(key, Sort(key, xs))
    ensures WithKey(key, Sort(key, xs), k) == WithKey(key, xs, k)
    decreases |xs|
  {
    if xs != [] {
      var rest, x := xs[..|xs| - 1], xs[|xs| - 1];
      var s := Sort(key, rest);
      SortOrders(key, rest, k);
      InsertIsStable(key, s, x, k);
      WithKeyAppend(key, s, x, k);
      if AllKeyed(key, xs) {
        forall y | y in s + [x]
          ensures key(y).Num?
        {
          if y in s {
            assert y in multiset(s);
            assert y in rest;
          }
          assert y in xs;
        }
        InsertKeepsOrder(key, s, x);
      }
    }
  }
}
