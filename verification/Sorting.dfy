/** The stable sort by prefix length that both compilers run first. */
module Sorting {
  predicate SortedBy<T>(key: T -> int, xs: seq<T>) {
    forall i, j | 0 <= i < j < |xs| :: key(xs[i]) <= key(xs[j])
  }

  /** The elements with one key, in order. */
  function WithKey<T>(key: T -> int, xs: seq<T>, v: int): seq<T> {
    if xs == [] then []
    else WithKey(key, xs[..|xs| - 1], v) + if key(xs[|xs| - 1]) == v then [xs[|xs| - 1]] else []
  }

  lemma {:induction false} WithKeyConcat<T>(key: T -> int, xs: seq<T>, ys: seq<T>, v: int)
    ensures WithKey(key, xs + ys, v) == WithKey(key, xs, v) + WithKey(key, ys, v)
    decreases |ys|
  {
    if ys == [] {
      assert xs + ys == xs;
    } else {
      var front := ys[..|ys| - 1];
      assert (xs + ys)[..|xs + ys| - 1] == xs + front;
      WithKeyConcat(key, xs, front, v);
    }
  }

  lemma {:induction false} NoneWithKey<T>(key: T -> int, xs: seq<T>, v: int)
    requires forall i | 0 <= i < |xs| :: key(xs[i]) != v
    ensures WithKey(key, xs, v) == []
  {
    if xs != [] {
      NoneWithKey(key, xs[..|xs| - 1], v);
    }
  }

  /** Where `x` goes: behind everything that is not greater. */
  function Position<T>(key: T -> int, xs: seq<T>, x: T, n: nat): (k: nat)
    requires SortedBy(key, xs) && n <= |xs|
    requires forall i | n <= i < |xs| :: key(x) < key(xs[i])
    ensures k <= n
    ensures forall i | 0 <= i < k :: key(xs[i]) <= key(x)
    ensures forall i | k <= i < |xs| :: key(x) < key(xs[i])
  {
    if n == 0 || key(xs[n - 1]) <= key(x) then n else Position(key, xs, x, n - 1)
  }

  function Insert<T(!new)>(key: T -> int, xs: seq<T>, x: T): (r: seq<T>)
    requires SortedBy(key, xs)
    ensures SortedBy(key, r)
    ensures forall y :: y in r <==> y in xs || y == x
  {
    var k := Position(key, xs, x, |xs|);
    assert xs == xs[..k] + xs[k..];
    xs[..k] + [x] + xs[k..]
  }

  /** An element may move behind elements of other keys. */
  lemma MoveBehind<T>(key: T -> int, front: seq<T>, x: T, back: seq<T>, v: int)
    requires forall i | 0 <= i < |back| :: key(back[i]) != key(x)
    ensures WithKey(key, front + [x] + back, v) == WithKey(key, front + back + [x], v)
  {
    WithKeyConcat(key, front + [x], back, v);
    WithKeyConcat(key, front, [x], v);
    WithKeyConcat(key, front + back, [x], v);
    WithKeyConcat(key, front, back, v);
    if key(x) == v {
      NoneWithKey(key, back, v);
    } else {
      NoneWithKey(key, [x], v);
    }
  }

  lemma InsertIsStable<T(!new)>(key: T -> int, xs: seq<T>, x: T, v: int)
    requires SortedBy(key, xs)
    ensures WithKey(key, Insert(key, xs, x), v) == WithKey(key, xs + [x], v)
  {
    var k := Position(key, xs, x, |xs|);
    MoveBehind(key, xs[..k], x, xs[k..], v);
    assert xs[..k] + xs[k..] == xs;
  }

  function StableSort<T(!new)>(key: T -> int, xs: seq<T>): (r: seq<T>)
    ensures SortedBy(key, r)
    ensures forall y :: y in r <==> y in xs
  {
    if xs == [] then []
    else
      assert xs == xs[..|xs| - 1] + [xs[|xs| - 1]];
      Insert(key, StableSort(key, xs[..|xs| - 1]), xs[|xs| - 1])
  }

  /** Elements with equal keys keep their number and order. */
  lemma {:induction false} SortIsStable<T(!new)>(key: T -> int, xs: seq<T>, v: int)
    ensures WithKey(key, StableSort(key, xs), v) == WithKey(key, xs, v)
  {
    if xs != [] {
      var front, last := xs[..|xs| - 1], xs[|xs| - 1];
      SortIsStable(key, front, v);
      InsertIsStable(key, StableSort(key, front), last, v);
      WithKeyConcat(key, StableSort(key, front), [last], v);
      WithKeyConcat(key, front, [last], v);
      assert xs == front + [last];
    }
  }
}
