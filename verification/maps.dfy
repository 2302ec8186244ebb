/**
 * Counting maps: finite maps from keys to (unbounded) counts, with the two
 * update disciplines the program uses — insert-if-absent, and merge by
 * addition — and the key-wise sum of two maps. `Total` (the sum of all
 * values) is the reference quantity the merges preserve.
 */
module CountMaps {

  /** The value under `k`, or 0 when `k` is absent (Java's `getOrDefault(k, 0)`). */
  function Get0<K>(m: map<K, int>, k: K): int
  {
    if k in m then m[k] else 0
  }

  /** `Map.merge(k, v, (v1, v2) -> v1 + v2)`: add `v` to the count under `k`. */
  function Merge<K>(m: map<K, int>, k: K, v: int): (r: map<K, int>)
    ensures r.Keys == m.Keys + {k}
    ensures r[k] == Get0(m, k) + v
    ensures forall j :: j in m && j != k ==> r[j] == m[j]
  {
    m[k := Get0(m, k) + v]
  }

  /** `Map.putIfAbsent(k, v)`: an existing key keeps its value. */
  function PutIfAbsent<K, V>(m: map<K, V>, k: K, v: V): (r: map<K, V>)
    ensures r.Keys == m.Keys + {k}
    ensures k in m ==> r == m
    ensures k !in m ==> r[k] == v
    ensures forall j :: j in m ==> r[j] == m[j]
  {
    if k in m then m else m[k := v]
  }

  /** The key-wise sum: every key of either map, with the two counts added. */
  function KeywiseSum<K(!new)>(m: map<K, int>, n: map<K, int>): (r: map<K, int>)
    ensures r.Keys == m.Keys + n.Keys
    ensures forall k :: Get0(r, k) == Get0(m, k) + Get0(n, k)
  {
    map k | k in m.Keys + n.Keys :: Get0(m, k) + Get0(n, k)
  }

  ghost function Pick<K>(s: set<K>): K
    requires s != {}
  {
    var x :| x in s; x
  }

  /** The sum of all counts. */
  ghost function Total<K>(m: map<K, int>): int
    decreases |m|
  {
    if m == map[] then 0
    else
      var k := Pick(m.Keys);
      m[k] + Total(m - {k})
  }

  /** `Total` does not depend on which key is taken first. */
  lemma {:induction false} TotalRemove<K>(m: map<K, int>, k: K)
    requires k in m
    ensures Total(m) == m[k] + Total(m - {k})
    decreases |m|
  {
    var j := Pick(m.Keys);
    if j != k {
      assert |m - {j}| < |m| by { assert m.Keys - {j} < m.Keys; }
      TotalRemove(m - {j}, k);
      TotalRemove(m - {k}, j);
      assert (m - {j}) - {k} == (m - {k}) - {j};
    }
  }

  /** Merging `v` under one key raises the total by exactly `v`. */
  lemma TotalMerge<K>(m: map<K, int>, k: K, v: int)
    ensures Total(Merge(m, k, v)) == Total(m) + v
  {
    var r := Merge(m, k, v);
    TotalRemove(r, k);
    if k in m {
      TotalRemove(m, k);
      assert r - {k} == m - {k};
    } else {
      assert r - {k} == m;
    }
  }

  /** The key-wise sum adds the totals. */
  lemma {:induction false} TotalKeywiseSum<K(!new)>(m: map<K, int>, n: map<K, int>)
    ensures Total(KeywiseSum(m, n)) == Total(m) + Total(n)
    decreases |n|
  {
    if n == map[] {
      KeywiseEmpty(m);
    } else {
      var k :| k in n;
      var rest := n - {k};
      KeywiseSplit(m, n, k);
      TotalKeywiseSum(m, rest);
      TotalMerge(KeywiseSum(m, rest), k, n[k]);
      TotalRemove(n, k);
    }
  }

  /** Maps with the same keys and the same values are equal. */
  lemma SameEntries<K>(r: map<K, int>, s: map<K, int>)
    requires r.Keys == s.Keys
    requires forall k :: k in r ==> r[k] == s[k]
    ensures r == s
  {
  }

  lemma KeywiseSplit<K(!new)>(m: map<K, int>, n: map<K, int>, k: K)
    requires k in n
    ensures KeywiseSum(m, n) == Merge(KeywiseSum(m, n - {k}), k, n[k])
  {
    var a, b := KeywiseSum(m, n), Merge(KeywiseSum(m, n - {k}), k, n[k]);
    assert a.Keys == b.Keys;
    forall j | j in a ensures a[j] == b[j] {
      assert Get0(a, j) == Get0(m, j) + Get0(n, j);
      assert Get0(KeywiseSum(m, n - {k}), j) == Get0(m, j) + Get0(n - {k}, j);
    }
    SameEntries(a, b);
  }

  lemma KeywiseShift<K(!new)>(r: map<K, int>, rest: map<K, int>, k: K)
    requires k in rest
    ensures KeywiseSum(Merge(r, k, rest[k]), rest - {k}) == KeywiseSum(r, rest)
  {
    var a, b := KeywiseSum(Merge(r, k, rest[k]), rest - {k}), KeywiseSum(r, rest);
    assert a.Keys == b.Keys;
    forall j | j in a ensures a[j] == b[j] {
      assert Get0(a, j) == Get0(Merge(r, k, rest[k]), j) + Get0(rest - {k}, j);
      assert Get0(b, j) == Get0(r, j) + Get0(rest, j);
    }
    SameEntries(a, b);
  }

  /** Taking the key-wise sum one entry of `n` at a time gives the key-wise sum. */
  method MergeEach<K(!new)>(m: map<K, int>, n: map<K, int>) returns (r: map<K, int>)
    ensures r == KeywiseSum(m, n)
  {
    r := m;
    var rest := n;
    while rest != map[]
      invariant KeywiseSum(r, rest) == KeywiseSum(m, n)
      decreases |rest|
    {
      var k :| k in rest;
      KeywiseShift(r, rest, k);
      r := Merge(r, k, rest[k]);
      rest := rest - {k};
    }
    KeywiseEmpty(r);
  }

  lemma KeywiseEmpty<K(!new)>(m: map<K, int>)
    ensures KeywiseSum(m, map[]) == m
  {
    var a := KeywiseSum(m, map[]);
    forall j | j in a ensures a[j] == m[j] {
      assert Get0(a, j) == Get0(m, j) + Get0(map[], j);
    }
    SameEntries(a, m);
  }
}
