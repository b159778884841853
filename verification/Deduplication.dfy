/** The de-duplication both compilers end with: a map from key to first value, then a walk of the map. */
module Deduplication {
  import opened Basics

  function Keys<T, K>(key: T -> K, xs: set<T>): set<K> {
    set x | x in xs :: key(x)
  }

  lemma KeysOneMore<T, K>(key: T -> K, xs: seq<T>, x: T)
    ensures Keys(key, Elements(xs + [x])) == Keys(key, Elements(xs)) + {key(x)}
  {
    assert Elements(xs + [x]) == Elements(xs) + {x};
  }

  /** The element at `i` is the first with its key. */
  predicate IsFirst<T, K(==)>(key: T -> K, xs: seq<T>, i: nat) {
    i < |xs| && forall j | 0 <= j < i :: key(xs[j]) != key(xs[i])
  }

  function Firsts<T, K(==)>(key: T -> K, xs: seq<T>): set<T> {
    set i | 0 <= i < |xs| && IsFirst(key, xs, i) :: xs[i]
  }

  lemma FirstsOneMore<T, K>(key: T -> K, xs: seq<T>, x: T)
    ensures Firsts(key, xs + [x]) == Firsts(key, xs) + if key(x) in Keys(key, Elements(xs)) then {} else {x}
  {
    var more := xs + [x];
    forall i | 0 <= i < |xs|
      ensures IsFirst(key, more, i) <==> IsFirst(key, xs, i)
    {
      assert forall j | 0 <= j <= i :: more[j] == xs[j];
    }
    assert IsFirst(key, more, |xs|) <==> key(x) !in Keys(key, Elements(xs)) by {
      assert forall j | 0 <= j < |xs| :: more[j] == xs[j] && xs[j] in Elements(xs);
    }
    forall y
      ensures y in Firsts(key, more) <==> y in Firsts(key, xs) || (y == x && IsFirst(key, more, |xs|))
    {
      if i :| 0 <= i < |xs| && IsFirst(key, xs, i) && xs[i] == y {
        assert more[i] == y;
      }
    }
  }

  /** The first element of every key, each once, in whatever order the map is walked. */
  method FirstPerKey<T(==), K(==)>(key: T -> K, xs: seq<T>) returns (result: seq<T>)
    ensures Elements(result) == Firsts(key, xs) && |result| == |Keys(key, Elements(xs))|
    ensures Elements(result) <= Elements(xs) && Keys(key, Elements(result)) == Keys(key, Elements(xs))
  {
    var unique: map<K, T> := map[];
    for i := 0 to |xs|
      invariant Collected(key, xs[..i], unique)
    {
      assert xs[..i + 1] == xs[..i] + [xs[i]];
      CollectOne(key, xs[..i], xs[i], unique);
      if key(xs[i]) !in unique {
        unique := unique[key(xs[i]) := xs[i]];
      }
    }
    assert xs[..|xs|] == xs;
    FirstsAreElements(key, xs);
    result := Walk(key, unique);
  }

  /** The map has the first element of every key. */
  ghost predicate Collected<T, K>(key: T -> K, xs: seq<T>, unique: map<K, T>) {
    && unique.Keys == Keys(key, Elements(xs)) && unique.Values == Firsts(key, xs)
    && forall k | k in unique :: key(unique[k]) == k
  }

  lemma CollectOne<T, K>(key: T -> K, xs: seq<T>, x: T, unique: map<K, T>)
    requires Collected(key, xs, unique)
    ensures Collected(key, xs + [x], if key(x) in unique then unique else unique[key(x) := x])
  {
    KeysOneMore(key, xs, x);
    FirstsOneMore(key, xs, x);
    if key(x) !in unique {
      NewValue(unique, key(x), x);
    }
  }

  lemma FirstsAreElements<T, K>(key: T -> K, xs: seq<T>)
    ensures Firsts(key, xs) <= Elements(xs)
  {
  }

  lemma NewValue<T, K>(m: map<K, T>, k: K, x: T)
    requires k !in m
    ensures m[k := x].Values == m.Values + {x}
  {
    var more := m[k := x];
    assert forall j | j in m :: more[j] == m[j];
    assert more[k] == x;
  }

  /** The values of the map, one by one. */
  method Walk<T(==), K(==)>(ghost key: T -> K, m: map<K, T>) returns (result: seq<T>)
    requires forall k | k in m :: key(m[k]) == k
    ensures Elements(result) == m.Values && Keys(key, Elements(result)) == m.Keys && |result| == |m.Keys|
  {
    result := [];
    var rest := m.Keys;
    while rest != {}
      invariant rest <= m.Keys && |result| + |rest| == |m.Keys|
      invariant Elements(result) == ValuesAt(m, m.Keys - rest)
      invariant Keys(key, Elements(result)) == m.Keys - rest
      decreases rest
    {
      var k :| k in rest;
      KeysOneMore(key, result, m[k]);
      ValuesOneMore(m, m.Keys - rest, k);
      assert m.Keys - rest + {k} == m.Keys - (rest - {k});
      assert Elements(result + [m[k]]) == Elements(result) + {m[k]};
      result := result + [m[k]];
      rest := rest - {k};
    }
    assert m.Keys - rest == m.Keys;
    assert ValuesAt(m, m.Keys) == m.Values;
  }

  ghost function ValuesAt<T, K>(m: map<K, T>, keys: set<K>): set<T> {
    set k | k in keys && k in m :: m[k]
  }

  lemma ValuesOneMore<T, K>(m: map<K, T>, keys: set<K>, k: K)
    requires k in m
    ensures ValuesAt(m, keys + {k}) == ValuesAt(m, keys) + {m[k]}
  {
  }
}
