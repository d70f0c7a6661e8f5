/** What the truncation to integers does to a problem, measured by the fractions it drops. */
module TruncationLoss {
  import opened Arithmetic
  import opened CompressedMatrices
  import opened QuboScaling
  import opened Sums
  import Qubo
  import S = Substitution

  /** The fraction that each coefficient loses, with its sign. */
  ghost function Dropped(m: map<Key, real>): (d: map<Key, real>)
    ensures d.Keys == m.Keys && forall key: Key | key in m :: -1.0 < d[key] < 1.0
    ensures forall key: Key | key in m :: d[key] == m[key] - Truncate(m[key]) as real
  {
    map key: Key | key in m :: m[key] - Truncate(m[key]) as real
  }

  ghost function Sizes(m: map<Key, real>): Key -> real {
    (k: Key) => if k in m then AbsReal(m[k]) else 0.0
  }

  /** The sum of the absolute fractions. */
  ghost function Loss(m: map<Key, real>): real {
    SetSum(m.Keys, Sizes(Dropped(m)))
  }

  lemma {:induction false} SumBelow(s: set<Key>, g: Key -> real, h: Key -> real, w: Key -> real)
    requires forall k | k in s :: g(k) - h(k) <= w(k)
    ensures SetSum(s, g) - SetSum(s, h) <= SetSum(s, w)
    decreases |s|
  {
    if s != {} {
      var k :| k in s;
      SetSumRemove(s, k, g);
      SetSumRemove(s, k, h);
      SetSumRemove(s, k, w);
      SumBelow(s - {k}, g, h, w);
    }
  }

  /** Two assignments differ in what they lose by at most the loss of the problem. */
  lemma LossBound(m: map<Key, real>, x: seq<bool>, y: seq<bool>)
    ensures S.Form(Dropped(m), x, x) - S.Form(Dropped(m), y, y) <= Loss(m)
  {
    var d := Dropped(m);
    SumBelow(m.Keys, S.FormWeight(d, x, x), S.FormWeight(d, y, y), Sizes(d));
  }

  lemma {:induction false} UnitSum(s: set<Key>, w: Key -> real)
    requires forall k | k in s :: 0.0 <= w(k) < 1.0
    ensures 0.0 <= SetSum(s, w) <= |s| as real
    ensures s != {} ==> SetSum(s, w) < |s| as real
    ensures SetSum(s, w) == 0.0 <==> forall k | k in s :: w(k) == 0.0
    decreases |s|
  {
    if s != {} {
      var k :| k in s;
      SetSumRemove(s, k, w);
      UnitSum(s - {k}, w);
      assert |s| == |s - {k}| + 1;
      assert forall j | j in s :: j == k || j in s - {k};
    }
  }

  /** The loss is less than one per coefficient, and zero exactly when nothing is dropped. */
  lemma LossRange(m: map<Key, real>)
    ensures 0.0 <= Loss(m) <= |m.Keys| as real && (m.Keys != {} ==> Loss(m) < |m.Keys| as real)
    ensures Loss(m) == 0.0 <==> Exact(m)
  {
    UnitSum(m.Keys, Sizes(Dropped(m)));
  }

  /** The truncated value is the scaled value without what is dropped. */
  lemma TruncatedEnergy(m: map<Key, real>, z: Csr<int>, x: seq<bool>)
    requires z.Valid() && IsTruncated(z.View(), m) && |x| == z.numRows == z.numCols
    ensures Qubo.Energy(z, x) as real == S.Form(m, x, x) - S.Form(Dropped(m), x, x)
  {
    IntegerEnergyIsForm(z, x, |z.values|);
    FormPlus(m, AsReal(z.View()), Dropped(m), x);
  }

  lemma FormPlus(m: map<Key, real>, a: map<Key, real>, b: map<Key, real>, x: seq<bool>)
    requires a.Keys == b.Keys == m.Keys && forall key: Key | key in m :: m[key] == a[key] + b[key]
    ensures S.Form(m, x, x) == S.Form(a, x, x) + S.Form(b, x, x)
  {
    SetSumPlus(m.Keys, S.FormWeight(a, x, x), S.FormWeight(b, x, x), S.FormWeight(m, x, x));
  }

  // ---------------------------------------------------------------- when truncation changes no value

  /** The assignment that sets variables `i` and `j` alone. */
  ghost function Only(n: nat, i: nat, j: nat): (x: seq<bool>)
    ensures |x| == n && forall k | 0 <= k < n :: x[k] <==> k == i || k == j
  {
    seq(n, k => k == i || k == j)
  }

  /** Upper-triangular keys of a problem with `n` variables. */
  ghost predicate UpperKeys(m: map<Key, real>, n: nat) {
    forall key: Key | key in m :: key.0 <= key.1 < n
  }

  lemma TakeOut(s: set<Key>, k: Key, g: Key -> real)
    ensures SetSum(s, g) == SetSum(s - {k}, g) + if k in s then g(k) else 0.0
  {
    if k in s {
      SetSumRemove(s, k, g);
    } else {
      assert s - {k} == s;
    }
  }

  lemma {:induction false} NothingSum(s: set<Key>, g: Key -> real)
    requires forall k | k in s :: g(k) == 0.0
    ensures SetSum(s, g) == 0.0
    decreases |s|
  {
    if s != {} {
      var k :| k in s;
      SetSumRemove(s, k, g);
      NothingSum(s - {k}, g);
    }
  }

  lemma FormAtOne(m: map<Key, real>, n: nat, i: nat)
    requires UpperKeys(m, n) && i < n
    ensures S.Form(m, Only(n, i, i), Only(n, i, i)) == S.At(m, (i, i))
  {
    var g := S.FormWeight(m, Only(n, i, i), Only(n, i, i));
    TakeOut(m.Keys, (i, i), g);
    NothingSum(m.Keys - {(i, i)}, g);
  }

  lemma FormAtTwo(m: map<Key, real>, n: nat, i: nat, j: nat)
    requires UpperKeys(m, n) && i < j < n
    ensures S.Form(m, Only(n, i, j), Only(n, i, j)) == S.At(m, (i, i)) + S.At(m, (j, j)) + S.At(m, (i, j))
  {
    var g := S.FormWeight(m, Only(n, i, j), Only(n, i, j));
    TakeOut(m.Keys, (i, i), g);
    TakeOut(m.Keys - {(i, i)}, (j, j), g);
    TakeOut(m.Keys - {(i, i)} - {(j, j)}, (i, j), g);
    NothingSum(m.Keys - {(i, i)} - {(j, j)} - {(i, j)}, g);
  }

  /** A quadratic form that vanishes at every assignment has no coefficients. */
  lemma ZeroForm(m: map<Key, real>, n: nat)
    requires UpperKeys(m, n) && forall x: seq<bool> | |x| == n :: S.Form(m, x, x) == 0.0
    ensures forall key: Key | key in m :: m[key] == 0.0
  {
    forall i: nat | i < n
      ensures S.At(m, (i, i)) == 0.0
    {
      FormAtOne(m, n, i);
    }
    forall key: Key | key in m
      ensures m[key] == 0.0
    {
      var (i, j) := key;
      if i < j {
        FormAtTwo(m, n, i, j);
      }
    }
  }

  /** Truncation changes no value if and only if it changes no coefficient. */
  lemma ExactIffSameValues(m: map<Key, real>, z: Csr<int>)
    requires z.Valid() && z.numRows == z.numCols && UpperKeys(m, z.numRows) && IsTruncated(z.View(), m)
    ensures Exact(m) <==> forall x: seq<bool> | |x| == z.numRows :: Qubo.Energy(z, x) as real == S.Form(m, x, x)
  {
    if Exact(m) {
      forall x: seq<bool> | |x| == z.numRows
        ensures Qubo.Energy(z, x) as real == S.Form(m, x, x)
      {
        TruncationError(m, z, x);
      }
    }
    if forall x: seq<bool> | |x| == z.numRows :: Qubo.Energy(z, x) as real == S.Form(m, x, x) {
      forall x: seq<bool> | |x| == z.numRows
        ensures S.Form(Dropped(m), x, x) == 0.0
      {
        TruncatedEnergy(m, z, x);
      }
      ZeroForm(Dropped(m), z.numRows);
    }
  }

  // ---------------------------------------------------------------- when truncation keeps optimal solutions

  predicate IsTimes(v: real, n: int, d: real) {
    v == n as real * d
  }

  ghost predicate IsMultiple(v: real, d: real) {
    exists n: int :: IsTimes(v, n, d)
  }

  ghost predicate MultiplesOf(m: map<Key, real>, d: real) {
    d > 0.0 && forall key: Key | key in m :: IsMultiple(m[key], d)
  }

  /** The coefficients are multiples of a quantum that is larger than all the dropped fractions together. */
  ghost predicate Separated(m: map<Key, real>) {
    exists d: real :: MultiplesOf(m, d) && Loss(m) < d
  }

  lemma MultipleZero(d: real)
    ensures IsMultiple(0.0, d)
  {
    assert IsTimes(0.0, 0, d);
  }

  lemma MultipleSum(a: real, b: real, d: real)
    requires IsMultiple(a, d) && IsMultiple(b, d)
    ensures IsMultiple(a + b, d) && IsMultiple(a - b, d)
  {
    var i: int :| IsTimes(a, i, d);
    var j: int :| IsTimes(b, j, d);
    Distribute(d, i as real, j as real);
    Distribute(d, i as real, -(j as real));
    assert IsTimes(a + b, i + j, d);
    assert IsTimes(a - b, i - j, d);
  }

  /** Multiples of `d` are at least `d` apart. */
  lemma MultipleGap(v: real, d: real)
    requires d > 0.0 && IsMultiple(v, d) && v < d
    ensures v <= 0.0
  {
    var n: int :| IsTimes(v, n, d);
    MultipleSize(v, n, n as real, d);
  }

  lemma MultipleSize(v: real, n: int, m: real, d: real)
    requires d > 0.0 && m == n as real && v == m * d
    ensures if n >= 1 then v >= d else v <= 0.0
  {
    if n >= 1 {
      NotNegative(m - 1.0, d);
      assert (m - 1.0) * d == v - d;
    } else {
      NotNegative(-m, d);
      assert -m * d == -v;
    }
  }

  lemma NotNegative(a: real, b: real)
    requires a >= 0.0 && b >= 0.0
    ensures a * b >= 0.0
  {
  }

  lemma {:induction false} SumMultiple(s: set<Key>, g: Key -> real, d: real)
    requires forall k | k in s :: IsMultiple(g(k), d)
    ensures IsMultiple(SetSum(s, g), d)
    decreases |s|
  {
    if s == {} {
      MultipleZero(d);
    } else {
      var k :| k in s;
      SetSumRemove(s, k, g);
      SumMultiple(s - {k}, g, d);
      MultipleSum(g(k), SetSum(s - {k}, g), d);
    }
  }

  lemma FormMultiple(m: map<Key, real>, d: real, x: seq<bool>)
    requires MultiplesOf(m, d)
    ensures IsMultiple(S.Form(m, x, x), d)
  {
    MultipleZero(d);
    SumMultiple(m.Keys, S.FormWeight(m, x, x), d);
  }

  /** A truncated value that is no larger comes from a scaled value that is no larger. */
  lemma SeparatedOrder(m: map<Key, real>, z: Csr<int>, x: seq<bool>, y: seq<bool>)
    requires z.Valid() && IsTruncated(z.View(), m) && |x| == |y| == z.numRows == z.numCols && Separated(m)
    requires Qubo.Energy(z, x) <= Qubo.Energy(z, y)
    ensures S.Form(m, x, x) <= S.Form(m, y, y)
  {
    var d: real :| MultiplesOf(m, d) && Loss(m) < d;
    TruncatedEnergy(m, z, x);
    TruncatedEnergy(m, z, y);
    LossBound(m, x, y);
    FormMultiple(m, d, x);
    FormMultiple(m, d, y);
    MultipleSum(S.Form(m, x, x), S.Form(m, y, y), d);
    MultipleGap(S.Form(m, x, x) - S.Form(m, y, y), d);
  }

  lemma ExactSeparated(m: map<Key, real>)
    requires Exact(m)
    ensures Separated(m) && forall x: seq<bool> :: S.Form(Dropped(m), x, x) == 0.0
  {
    LossRange(m);
    forall key: Key | key in m
      ensures IsMultiple(m[key], 1.0)
    {
      assert IsTimes(m[key], Truncate(m[key]), 1.0);
    }
    assert MultiplesOf(m, 1.0);
    forall x: seq<bool>
      ensures S.Form(Dropped(m), x, x) == 0.0
    {
      NothingSum(m.Keys, S.FormWeight(Dropped(m), x, x));
    }
  }

  /** All coefficients are integers. */
  ghost predicate Integral(m: map<Key, real>) {
    forall key: Key | key in m :: m[key] == m[key].Floor as real
  }

  /** An integer problem is separated if the number of its coefficients times the largest one is at most 2^53. */
  lemma IntegerSeparated(m: map<Key, real>, a: real)
    requires Integral(m) && IsMaxAbs(m, a) && |m.Keys| as real * a <= 9007199254740992.0
    ensures Separated(Times(m, Ratio(a)))
  {
    ScaledMultiples(m, Ratio(a));
    if a == 0.0 {
      AllZero(m, Ratio(a));
      ExactSeparated(Times(m, Ratio(a)));
    } else {
      RatioAtLeast(a, |m.Keys|);
      SmallLoss(Times(m, Ratio(a)), Ratio(a));
    }
  }

  lemma SmallLoss(m: map<Key, real>, d: real)
    requires MultiplesOf(m, d) && |m.Keys| as real <= d
    ensures Separated(m)
  {
    LossRange(m);
  }

  lemma ScaledMultiples(m: map<Key, real>, ratio: real)
    requires Integral(m) && ratio > 0.0
    ensures MultiplesOf(Times(m, ratio), ratio)
  {
    forall key: Key | key in m
      ensures IsMultiple(m[key] * ratio, ratio)
    {
      assert IsTimes(m[key] * ratio, m[key].Floor, ratio);
    }
  }

  lemma AllZero(m: map<Key, real>, ratio: real)
    requires IsMaxAbs(m, 0.0)
    ensures Exact(Times(m, ratio))
  {
    forall key: Key | key in m
      ensures m[key] * ratio == 0.0
    {
      assert AbsReal(m[key]) <= 0.0;
    }
  }

  lemma RatioAtLeast(a: real, n: nat)
    requires a > 0.0 && n as real * a <= 9007199254740992.0
    ensures Ratio(a) >= n as real
  {
    assert LARGEST / a / 1024.0 == 9007199254740992.0 / a;
    assert n as real <= 9007199254740992.0 / a;
  }
}
