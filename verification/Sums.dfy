/** Finite sums over sets, independent of the order of summation. */
module Sums {

  ghost function SetSum<K(!new)>(s: set<K>, g: K -> real): real {
    if s == {} then 0.0 else
      var k :| k in s;
      g(k) + SetSum(s - {k}, g)
  }

  lemma {:induction false} SetSumRemove<K(!new)>(s: set<K>, k: K, g: K -> real)
    requires k in s
    ensures SetSum(s, g) == g(k) + SetSum(s - {k}, g)
    decreases |s|
  {
    var j :| j in s && SetSum(s, g) == g(j) + SetSum(s - {j}, g);
    if j != k {
      SetSumRemove(s - {j}, k, g);
      SetSumRemove(s - {k}, j, g);
      assert s - {j} - {k} == s - {k} - {j};
    }
  }

  lemma SetSumInsert<K(!new)>(s: set<K>, k: K, g: K -> real)
    requires k !in s
    ensures SetSum(s + {k}, g) == SetSum(s, g) + g(k)
  {
    SetSumRemove(s + {k}, k, g);
    assert s + {k} - {k} == s;
  }

  lemma {:induction false} SetSumSame<K(!new)>(s: set<K>, g: K -> real, h: K -> real)
    requires forall k | k in s :: g(k) == h(k)
    ensures SetSum(s, g) == SetSum(s, h)
    decreases |s|
  {
    if s != {} {
      var k :| k in s;
      SetSumRemove(s, k, g);
      SetSumRemove(s, k, h);
      SetSumSame(s - {k}, g, h);
    }
  }

  lemma Distribute(c: real, a: real, b: real)
    ensures c * (a + b) == c * a + c * b
  {
  }

  lemma {:induction false} SetSumPlus<K(!new)>(s: set<K>, g: K -> real, h: K -> real, r: K -> real)
    requires forall k | k in s :: r(k) == g(k) + h(k)
    ensures SetSum(s, r) == SetSum(s, g) + SetSum(s, h)
    decreases |s|
  {
    if s != {} {
      var k :| k in s;
      SetSumPlus(s - {k}, g, h, r);
      SetSumRemove(s, k, g);
      SetSumRemove(s, k, h);
      SetSumRemove(s, k, r);
    }
  }

  /** Changing one summand. */
  lemma SetSumAt<K(!new)>(s: set<K>, k: K, g: K -> real, h: K -> real)
    requires forall i | i in s && i != k :: h(i) == g(i)
    ensures SetSum(s, h) == SetSum(s, g) + if k in s then h(k) - g(k) else 0.0
  {
    if k in s {
      SetSumRemove(s, k, g);
      SetSumRemove(s, k, h);
      SetSumSame(s - {k}, g, h);
    } else {
      SetSumSame(s, g, h);
    }
  }

  /** Every entry of `m` times the weight of its key. */
  ghost function Products<K(!new)>(m: map<K, real>, w: K -> real): K -> real {
    k => if k in m then m[k] * w(k) else 0.0
  }

  ghost function WeightedSum<K(!new)>(m: map<K, real>, w: K -> real): real {
    SetSum(m.Keys, Products(m, w))
  }

  lemma WeightedSumPlus<K(!new)>(m: map<K, real>, w: K -> real, f: K -> real, r: K -> real)
    requires forall k | k in m :: r(k) == w(k) + f(k)
    ensures WeightedSum(m, r) == WeightedSum(m, w) + WeightedSum(m, f)
  {
    forall k | k in m.Keys
      ensures Products(m, r)(k) == Products(m, w)(k) + Products(m, f)(k)
    {
      Distribute(m[k], w(k), f(k));
    }
    SetSumPlus(m.Keys, Products(m, w), Products(m, f), Products(m, r));
  }

  lemma WeightedSumSame<K(!new)>(m: map<K, real>, w: K -> real, r: K -> real)
    requires forall k | k in m :: r(k) == w(k)
    ensures WeightedSum(m, r) == WeightedSum(m, w)
  {
    SetSumSame(m.Keys, Products(m, w), Products(m, r));
  }

  /** Changing the weight of one key changes one summand. */
  lemma WeightedSumAt<K(!new)>(m: map<K, real>, k: K, w: K -> real, r: K -> real)
    requires forall i | i in m && i != k :: r(i) == w(i)
    ensures WeightedSum(m, r) == WeightedSum(m, w) + Products(m, r)(k) - Products(m, w)(k)
  {
    SetSumAt(m.Keys, k, Products(m, w), Products(m, r));
  }

  lemma WeightedSumPut<K(!new)>(m: map<K, real>, k: K, v: real, w: K -> real)
    ensures WeightedSum(m[k := v], w) == WeightedSum(m, w) - Products(m, w)(k) + Products(m[k := v], w)(k)
  {
    var m' := m[k := v];
    var rest := m.Keys - {k};
    SetSumRemove(m'.Keys, k, Products(m', w));
    assert m'.Keys - {k} == rest;
    SetSumSame(rest, Products(m, w), Products(m', w));
    if k in m {
      SetSumRemove(m.Keys, k, Products(m, w));
    } else {
      assert m.Keys == rest;
    }
  }

  lemma ProductAdd<K(!new)>(m: map<K, real>, k: K, d: real, w: K -> real)
    ensures Products(AddAt(m, k, d), w)(k) == Products(m, w)(k) + d * w(k)
  {
    Distribute(w(k), EntryAt(m, k), d);
  }

  /** `m[k] += d` */
  lemma WeightedSumAdd<K(!new)>(m: map<K, real>, k: K, d: real, w: K -> real)
    ensures WeightedSum(AddAt(m, k, d), w) == WeightedSum(m, w) + d * w(k)
  {
    WeightedSumPut(m, k, EntryAt(m, k) + d, w);
    ProductAdd(m, k, d, w);
  }

  lemma WeightedSumRemove<K(!new)>(m: map<K, real>, k: K, w: K -> real)
    requires k in m
    ensures WeightedSum(m, w) == WeightedSum(m - {k}, w) + Products(m, w)(k)
  {
    var m' := m - {k};
    SetSumRemove(m.Keys, k, Products(m, w));
    assert m'.Keys == m.Keys - {k};
    SetSumSame(m'.Keys, Products(m, w), Products(m', w));
  }

  lemma WeightedSumEmpty<K(!new)>(w: K -> real)
    ensures WeightedSum(map[], w) == 0.0
  {
    var m: map<K, real> := map[];
    assert m.Keys == {};
  }

  // ---------------------------------------------------------------- signed sums over maps

  /** `v` times the sign of `s`. */
  function Signed(v: real, s: int): real {
    if s > 0 then v else if s < 0 then -v else 0.0
  }

  ghost function Weighted<K(!new)>(m: map<K, real>, w: K -> int): K -> real {
    k => if k in m then Signed(m[k], w(k)) else 0.0
  }

  /** Sum of the entries of `m`, each with the sign of its key. */
  ghost function MapSum<K(!new)>(m: map<K, real>, w: K -> int): real {
    SetSum(m.Keys, Weighted(m, w))
  }

  function EntryAt<K>(m: map<K, real>, k: K): real {
    if k in m then m[k] else 0.0
  }

  /** `m[k] += d` */
  function AddAt<K>(m: map<K, real>, k: K, d: real): map<K, real> {
    m[k := EntryAt(m, k) + d]
  }

  lemma MapSumAdd<K(!new)>(m: map<K, real>, k: K, d: real, w: K -> int)
    ensures MapSum(AddAt(m, k, d), w) == MapSum(m, w) + Signed(d, w(k))
  {
    var m' := AddAt(m, k, d);
    var rest := m.Keys - {k};
    SetSumRemove(m'.Keys, k, Weighted(m', w));
    assert m'.Keys - {k} == rest;
    SetSumSame(rest, Weighted(m, w), Weighted(m', w));
    if k in m {
      SetSumRemove(m.Keys, k, Weighted(m, w));
    } else {
      assert m.Keys == rest;
    }
  }

  lemma MapSumEmpty<K(!new)>(w: K -> int)
    ensures MapSum(map[], w) == 0.0
  {
    var m: map<K, real> := map[];
    assert m.Keys == {};
  }

  /** The part of the sum that comes from the keys in `rest`. */
  ghost function MapSumOver<K(!new)>(rest: set<K>, m: map<K, real>, w: K -> int): real {
    SetSum(rest, Weighted(m, w))
  }

  lemma MapSumTake<K(!new)>(rest: set<K>, k: K, m: map<K, real>, w: K -> int)
    requires k in rest && rest <= m.Keys
    ensures MapSumOver(rest, m, w) == MapSumOver(rest - {k}, m, w) + Signed(m[k], w(k))
  {
    SetSumRemove(rest, k, Weighted(m, w));
  }
}
