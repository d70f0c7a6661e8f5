/** The integer problem that `fixQuboVariables` works on: upper triangular, scaled, and truncated.

Truncation drops the fraction of every scaled coefficient. What that does to values and to optimal solutions is
measured by the dropped fractions. */
module QuboScaling {
  import opened Arithmetic
  import opened CompressedMatrices
  import opened Sums
  import Qubo
  import S = Substitution

  // ---------------------------------------------------------------- the upper-triangular form

  function Ordered(key: Key): Key {
    if key.0 < key.1 then key else (key.1, key.0)
  }

  ghost function UpperTo(q: Csr<real>, k: nat): map<Key, real>
    requires q.Valid() && k <= |q.values|
  {
    if k == 0 then map[] else
      var key := Ordered(q.KeyAt(k - 1));
      UpperTo(q, k - 1)[key := S.At(UpperTo(q, k - 1), key) + q.values[k - 1]]
  }

  ghost function Upper(q: Csr<real>): map<Key, real>
    requires q.Valid()
  {
    UpperTo(q, |q.values|)
  }

  /** Folding the lower triangle up does not change x'Qx. */
  lemma {:induction false} UpperEnergy(q: Csr<real>, x: seq<bool>, k: nat)
    requires q.Valid() && k <= |q.values| && |x| == q.numRows == q.numCols
    ensures S.Form(UpperTo(q, k), x, x) == S.EnergyTo(q, x, k)
  {
    if k == 0 {
      EmptyForm(x);
    } else {
      UpperEnergy(q, x, k - 1);
      FoldEntry(UpperTo(q, k - 1), UpperTo(q, k), q.KeyAt(k - 1), q.values[k - 1], x, S.EnergyTo(q, x, k - 1));
    }
  }

  lemma EmptyForm(x: seq<bool>)
    ensures S.Form(map[], x, x) == 0.0
  {
    var m: map<Key, real> := map[];
    assert m.Keys == {};
  }

  lemma FoldEntry(m: map<Key, real>, m': map<Key, real>, key: Key, v: real, x: seq<bool>, e: real)
    requires m' == m[Ordered(key) := S.At(m, Ordered(key)) + v] && S.Form(m, x, x) == e
    ensures S.Form(m', x, x) == e + if S.Both(x, x, key) then v else 0.0
  {
    S.FormAdd(m, Ordered(key), v, x, x);
    assert S.Both(x, x, Ordered(key)) == S.Both(x, x, key);
  }

  lemma {:induction false} UpperInRange(q: Csr<real>, k: nat)
    requires q.Valid() && k <= |q.values| && q.numRows == q.numCols
    ensures forall key: Key | key in UpperTo(q, k) :: key.0 <= key.1 < q.numRows
  {
    if k > 0 {
      UpperInRange(q, k - 1);
    }
  }

  /** Variable `v` (counted from 0) occurs among the first `k` stored entries. */
  ghost predicate UsedTo(q: Csr<real>, k: nat, v: nat)
    requires q.Valid() && k <= |q.values|
  {
    exists j: nat :: j < k && (q.KeyAt(j).0 == v || q.KeyAt(j).1 == v)
  }

  lemma UsedNext(q: Csr<real>, k: nat)
    requires q.Valid() && k < |q.values|
    ensures forall v: nat :: UsedTo(q, k + 1, v) <==> UsedTo(q, k, v) || q.KeyAt(k).0 == v || q.KeyAt(k).1 == v
  {
    forall v: nat
      ensures UsedTo(q, k + 1, v) <==> UsedTo(q, k, v) || q.KeyAt(k).0 == v || q.KeyAt(k).1 == v
    {
      if UsedTo(q, k, v) {
        var j: nat :| j < k && (q.KeyAt(j).0 == v || q.KeyAt(j).1 == v);
        assert j < k + 1;
      }
    }
  }

  /** The first `k` entries are folded into `m`, and `used` has the variables that occur in them. */
  ghost predicate Folded(q: Csr<real>, k: nat, m: map<Key, real>, used: set<nat>)
    requires q.Valid() && k <= |q.values|
  {
    m == UpperTo(q, k) && forall v: nat :: v in used <==> UsedTo(q, k, v)
  }

  method UpperTriangle(q: Csr<real>) returns (m: map<Key, real>, used: set<nat>)
    requires q.Valid() && q.numRows == q.numCols
    ensures Folded(q, |q.values|, m, used)
  {
    m, used := map[], {};
    for i := 0 to q.numRows
      invariant q.rowOffsets[i] <= |q.values| && Folded(q, q.rowOffsets[i], m, used)
    {
      m, used := FoldRow(q, i, m, used);
    }
  }

  method FoldRow(q: Csr<real>, i: nat, m0: map<Key, real>, used0: set<nat>) returns (m: map<Key, real>, used: set<nat>)
    requires q.Valid() && i < q.numRows && q.rowOffsets[i] <= |q.values| && Folded(q, q.rowOffsets[i], m0, used0)
    ensures q.rowOffsets[i + 1] <= |q.values| && Folded(q, q.rowOffsets[i + 1], m, used)
  {
    m, used := m0, used0;
    var start, end := q.rowOffsets[i], q.rowOffsets[i + 1];
    for j := start to end
      invariant end <= |q.values| && Folded(q, j, m, used)
    {
      q.RowIs(i, j);
      m, used := FoldOne(q, j, i, q.colIndices[j], m, used);
    }
  }

  method FoldOne(q: Csr<real>, j: nat, r: nat, c: nat, m0: map<Key, real>, used0: set<nat>) returns (m: map<Key, real>, used: set<nat>)
    requires q.Valid() && j < |q.values| && q.KeyAt(j) == (r, c) && Folded(q, j, m0, used0)
    ensures Folded(q, j + 1, m, used)
  {
    var key := Ordered((r, c));
    m := m0[key := S.At(m0, key) + q.values[j]];
    used := used0 + {r, c};
    UsedNext(q, j);
  }

  // ---------------------------------------------------------------- scaling

  /** The largest 64-bit integer as a double. */
  const LARGEST := 9223372036854775808.0

  ghost predicate IsMaxAbs(m: map<Key, real>, a: real) {
    && a >= 0.0 && (forall key: Key | key in m :: AbsReal(m[key]) <= a)
    && (a == 0.0 || exists key: Key :: key in m && AbsReal(m[key]) == a)
  }

  method MaxAbs(u: Csr<real>) returns (a: real)
    requires u.Valid()
    ensures IsMaxAbs(u.View(), a)
  {
    a := 0.0;
    for i := 0 to |u.values|
      invariant a >= 0.0 && forall k | 0 <= k < i :: AbsReal(u.values[k]) <= a
      invariant a == 0.0 || exists k :: 0 <= k < i && AbsReal(u.values[k]) == a
    {
      if a < AbsReal(u.values[i]) {
        a := AbsReal(u.values[i]);
      }
    }
    LargestStored(u, a);
  }

  lemma LargestStored(u: Csr<real>, a: real)
    requires u.Valid() && a >= 0.0 && forall k | 0 <= k < |u.values| :: AbsReal(u.values[k]) <= a
    requires a == 0.0 || exists k :: 0 <= k < |u.values| && AbsReal(u.values[k]) == a
    ensures IsMaxAbs(u.View(), a)
  {
    forall key: Key | key in u.View()
      ensures AbsReal(u.View()[key]) <= a
    {
      var k := u.IndexOf(key);
    }
    if a != 0.0 {
      var k: nat :| k < |u.values| && AbsReal(u.values[k]) == a;
      u.ViewAt(k);
    }
  }

  function Ratio(maxAbs: real): (r: real)
    ensures r >= 1.0
  {
    var full := (if maxAbs != 0.0 then LARGEST / maxAbs else 1.0) / 1024.0;
    if full < 1.0 then 1.0 else full
  }

  /** The conversion from `double` to `long long`. */
  function Truncate(r: real): (t: int)
    ensures -1.0 < t as real - r < 1.0
  {
    if r < 0.0 then -(-r).Floor else r.Floor
  }

  /** The coefficients of the scaled problem. */
  ghost function Times(m: map<Key, real>, ratio: real): (t: map<Key, real>)
    ensures t.Keys == m.Keys
  {
    map key: Key | key in m :: m[key] * ratio
  }

  ghost predicate IsTruncated(z: map<Key, int>, m: map<Key, real>) {
    z.Keys == m.Keys && forall key: Key | key in m :: z[key] == Truncate(m[key])
  }

  /** Truncation changes no coefficient. */
  ghost predicate Exact(m: map<Key, real>) {
    forall key: Key | key in m :: Truncate(m[key]) as real == m[key]
  }

  method ScaleEntries(m: map<Key, real>, ratio: real) returns (z: map<Key, int>)
    ensures IsTruncated(z, Times(m, ratio))
  {
    z := map[];
    var rest := m.Keys;
    while rest != {}
      invariant rest <= m.Keys && z.Keys == m.Keys - rest
      invariant forall key: Key | key in z :: z[key] == Truncate(m[key] * ratio)
    {
      var key: Key :| key in rest;
      z := z[key := Truncate(m[key] * ratio)];
      rest := rest - {key};
    }
  }

  ghost function AsReal(m: map<Key, int>): map<Key, real> {
    map key: Key | key in m :: m[key] as real
  }

  lemma {:induction false} IntegerEnergyIsForm(z: Csr<int>, x: seq<bool>, k: nat)
    requires z.Valid() && k <= |z.values| && |x| == z.numRows == z.numCols
    ensures Qubo.EnergyTo(z, x, k) as real == S.Form(AsReal(z.ViewTo(k)), x, x)
  {
    if k == 0 {
      FirstForm(z, x);
    } else {
      IntegerEnergyIsForm(z, x, k - 1);
      NextForm(z, x, k - 1);
    }
  }

  lemma FirstForm(z: Csr<int>, x: seq<bool>)
    requires z.Valid()
    ensures S.Form(AsReal(z.ViewTo(0)), x, x) == 0.0
  {
    assert AsReal(z.ViewTo(0)) == map[];
    EmptyForm(x);
  }

  lemma NextForm(z: Csr<int>, x: seq<bool>, k: nat)
    requires z.Valid() && k < |z.values| && |x| == z.numRows == z.numCols
    requires Qubo.EnergyTo(z, x, k) as real == S.Form(AsReal(z.ViewTo(k)), x, x)
    ensures Qubo.EnergyTo(z, x, k + 1) as real == S.Form(AsReal(z.ViewTo(k + 1)), x, x)
  {
    EnergyNext(z, x, k);
    ViewNext(z, x, k);
  }

  lemma EnergyNext(z: Csr<int>, x: seq<bool>, k: nat)
    requires z.Valid() && k < |z.values| && |x| == z.numRows == z.numCols
    ensures Qubo.EnergyTo(z, x, k + 1) == Qubo.EnergyTo(z, x, k) + if S.Both(x, x, z.KeyAt(k)) then z.values[k] else 0
  {
  }

  lemma ViewNext(z: Csr<int>, x: seq<bool>, k: nat)
    requires z.Valid() && k < |z.values|
    ensures S.Form(AsReal(z.ViewTo(k + 1)), x, x)
         == S.Form(AsReal(z.ViewTo(k)), x, x) + (if S.Both(x, x, z.KeyAt(k)) then z.values[k] else 0) as real
  {
    z.KeyFresh(k);
    NewEntry(z.ViewTo(k), z.ViewTo(k + 1), z.KeyAt(k), z.values[k], x);
  }

  lemma NewEntry(m: map<Key, int>, m': map<Key, int>, key: Key, v: int, x: seq<bool>)
    requires key !in m && m' == m[key := v]
    ensures S.Form(AsReal(m'), x, x) == S.Form(AsReal(m), x, x) + (if S.Both(x, x, key) then v else 0) as real
  {
    assert AsReal(m') == AsReal(m)[key := v as real];
    S.FormAdd(AsReal(m), key, v as real, x, x);
  }

  ghost predicate Additive(f: real -> real) {
    f(0.0) == 0.0 && forall a, b, c | c == a + b :: f(c) == f(a) + f(b)
  }

  ghost predicate Increasing(f: real -> real) {
    forall a, b :: f(a) <= f(b) <==> a <= b
  }

  /** An additive function may be applied to the summands or to the sum. */
  lemma {:induction false} AdditiveSum(s: set<Key>, r: Key -> real, h: Key -> real, f: real -> real, sum: real)
    requires sum == SetSum(s, h) && Additive(f)
    requires forall k | k in s :: r(k) == f(h(k))
    ensures SetSum(s, r) == f(sum)
    decreases |s|
  {
    if s != {} {
      var k :| k in s;
      SetSumRemove(s, k, r);
      SetSumRemove(s, k, h);
      var rest := SetSum(s - {k}, h);
      AdditiveSum(s - {k}, r, h, f, rest);
    }
  }

  lemma {:induction false} SumError(s: set<Key>, g: Key -> real, r: Key -> real)
    requires forall k | k in s :: -1.0 <= g(k) - r(k) <= 1.0
    ensures -(|s| as real) <= SetSum(s, g) - SetSum(s, r) <= |s| as real
    decreases |s|
  {
    if s != {} {
      var k :| k in s;
      SetSumRemove(s, k, g);
      SetSumRemove(s, k, r);
      SumError(s - {k}, g, r);
      assert |s| == |s - {k}| + 1;
    }
  }

  /** The truncated problem differs from the scaled one by at most 1 per coefficient, and not at all if scaling is exact. */
  lemma TruncationError(m: map<Key, real>, z: Csr<int>, x: seq<bool>)
    requires z.Valid() && IsTruncated(z.View(), m) && |x| == z.numRows == z.numCols
    ensures -(|m.Keys| as real) <= Qubo.Energy(z, x) as real - S.Form(m, x, x) <= |m.Keys| as real
    ensures Exact(m) ==> Qubo.Energy(z, x) as real == S.Form(m, x, x)
  {
    IntegerEnergyIsForm(z, x, |z.values|);
    TruncatedNear(m, z.View());
    NearForm(m, AsReal(z.View()), x);
  }

  lemma TruncatedNear(m: map<Key, real>, z: map<Key, int>)
    requires IsTruncated(z, m)
    ensures AsReal(z).Keys == m.Keys && forall key: Key | key in m :: -1.0 < AsReal(z)[key] - m[key] < 1.0
    ensures Exact(m) ==> AsReal(z) == m
  {
  }

  lemma NearForm(m: map<Key, real>, mz: map<Key, real>, x: seq<bool>)
    requires mz.Keys == m.Keys && forall key: Key | key in m :: -1.0 < mz[key] - m[key] < 1.0
    ensures -(|m.Keys| as real) <= S.Form(mz, x, x) - S.Form(m, x, x) <= |m.Keys| as real
  {
    SumError(m.Keys, S.FormWeight(mz, x, x), S.FormWeight(m, x, x));
  }

  /** Scaling by a positive number keeps the order of values. */
  lemma ScaledOrder(q: Csr<real>, ratio: real, x: seq<bool>, y: seq<bool>)
    requires q.Valid() && |x| == |y| == q.numRows == q.numCols && ratio > 0.0
    ensures var m := Times(Upper(q), ratio); S.Form(m, x, x) <= S.Form(m, y, y) <==> S.Energy(q, x) <= S.Energy(q, y)
  {
    UpperEnergy(q, x, |q.values|);
    UpperEnergy(q, y, |q.values|);
    var times := MultiplyBy(ratio);
    OrderKept(Upper(q), Times(Upper(q), ratio), x, y, times);
  }

  lemma MultiplyBy(ratio: real) returns (f: real -> real)
    requires ratio > 0.0
    ensures Additive(f) && Increasing(f) && forall v :: f(v) == v * ratio
  {
    f := (v: real) => v * ratio;
    ProductAdditive(f, ratio);
    ProductIncreasing(f, ratio);
  }

  lemma ProductAdditive(f: real -> real, ratio: real)
    requires forall v :: f(v) == v * ratio
    ensures Additive(f)
  {
    forall a: real, b: real, c: real | c == a + b
      ensures f(c) == f(a) + f(b)
    {
      AddProducts(ratio, a, b, c, f(a), f(b), f(c));
    }
  }

  lemma AddProducts(r: real, a: real, b: real, c: real, ar: real, br: real, cr: real)
    requires c == a + b && ar == a * r && br == b * r && cr == c * r
    ensures cr == ar + br
  {
    Distribute(r, a, b);
  }

  lemma ProductIncreasing(f: real -> real, ratio: real)
    requires ratio > 0.0 && forall v :: f(v) == v * ratio
    ensures Increasing(f)
  {
    forall a: real, b: real
      ensures f(a) <= f(b) <==> a <= b
    {
      CancelFactor(ratio, a, b, f(a), f(b));
    }
  }

  lemma OrderKept(m: map<Key, real>, ms: map<Key, real>, x: seq<bool>, y: seq<bool>, f: real -> real)
    requires Additive(f) && Increasing(f)
    requires ms.Keys == m.Keys && forall k: Key | k in m :: ms[k] == f(m[k])
    ensures S.Form(ms, x, x) <= S.Form(ms, y, y) <==> S.Form(m, x, x) <= S.Form(m, y, y)
  {
    FormOf(m, ms, x, f);
    FormOf(m, ms, y, f);
  }

  lemma FormOf(m: map<Key, real>, ms: map<Key, real>, x: seq<bool>, f: real -> real)
    requires Additive(f) && ms.Keys == m.Keys && forall k: Key | k in m :: ms[k] == f(m[k])
    ensures S.Form(ms, x, x) == f(S.Form(m, x, x))
  {
    AdditiveSum(m.Keys, S.FormWeight(ms, x, x), S.FormWeight(m, x, x), f, S.Form(m, x, x));
  }

  lemma CancelFactor(c: real, a: real, b: real, ac: real, bc: real)
    requires c > 0.0 && ac == a * c && bc == b * c
    ensures ac <= bc <==> a <= b
  {
    if a > b {
      assert (a - b) * c > 0.0;
    } else {
      assert (b - a) * c >= 0.0;
    }
  }

  ghost predicate IsRatio(m: map<Key, real>, ratio: real) {
    exists a: real :: IsMaxAbs(m, a) && ratio == Ratio(a)
  }

  /** The coefficients after scaling, before truncation. */
  ghost function Scaled(q: Csr<real>, ratio: real): map<Key, real>
    requires q.Valid()
  {
    Times(Upper(q), ratio)
  }

  /** The largest absolute coefficient, and with it the scale factor, is unique. */
  lemma RatioUnique(m: map<Key, real>, ratio: real, a: real)
    requires IsRatio(m, ratio) && IsMaxAbs(m, a)
    ensures ratio == Ratio(a)
  {
    var b: real :| IsMaxAbs(m, b) && ratio == Ratio(b);
    assert a == b;
  }

  lemma SameRatio(m: map<Key, real>, r1: real, r2: real)
    requires IsRatio(m, r1) && IsRatio(m, r2)
    ensures r1 == r2
  {
    var a: real :| IsMaxAbs(m, a) && r1 == Ratio(a);
    RatioUnique(m, r2, a);
  }
}
