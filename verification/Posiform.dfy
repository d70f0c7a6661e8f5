/** The deterministic rewriting of an integer QUBO into a posiform. */
module PosiformConstruction {
  import opened CompressedMatrices
  import opened Qubo

  /** Sum of the negative off-diagonal entries that row `i` has among the first `k` entries. */
  ghost function NegativeSum(q: Csr<int>, i: nat, k: nat): int
    requires q.Valid() && k <= |q.values|
  {
    if k == 0 then 0 else
      var (r, c) := q.KeyAt(k - 1);
      NegativeSum(q, i, k - 1) + if r == i && r != c && q.values[k - 1] < 0 then q.values[k - 1] else 0
  }

  /** The quadratic term, if any, that stored entry `k` gives rise to. */
  ghost function TermAt(q: Csr<int>, k: nat): seq<QuadraticTerm>
    requires q.Valid() && k < |q.values|
  {
    var (r: int, c: int) := q.KeyAt(k);
    var v := q.values[k];
    if r == c || v == 0 then [] else if v < 0 then [QuadraticTerm(r + 1, -(c + 1), -v)] else [QuadraticTerm(r + 1, c + 1, v)]
  }

  ghost function QuadraticTerms(q: Csr<int>, k: nat): seq<QuadraticTerm>
    requires q.Valid() && k <= |q.values|
  {
    if k == 0 then [] else QuadraticTerms(q, k - 1) + TermAt(q, k - 1)
  }

  ghost function LinearTerms(coeffs: seq<int>): seq<LinearTerm> {
    if coeffs == [] then [] else
      var i := |coeffs| - 1;
      LinearTerms(coeffs[..i]) +
      if coeffs[i] < 0 then [LinearTerm(-(i + 1), -coeffs[i])] else if coeffs[i] > 0 then [LinearTerm(i + 1, coeffs[i])] else []
  }

  ghost function Constant(coeffs: seq<int>): int {
    if coeffs == [] then 0 else
      var i := |coeffs| - 1;
      Constant(coeffs[..i]) + if coeffs[i] < 0 then coeffs[i] else 0
  }

  /** Diagonal plus negative off-diagonal row sums. */
  ghost function LinearCoefficients(q: Csr<int>): (s: seq<int>)
    requires q.Valid()
    ensures |s| == q.numRows
  {
    seq(q.numRows, i requires 0 <= i < q.numRows => q.Lookup((i, i), 0) + NegativeSum(q, i, |q.values|))
  }

  ghost function PosiformOf(q: Csr<int>): Posiform
    requires q.Valid()
  {
    var cs := LinearCoefficients(q);
    Posiform(q.numRows, LinearTerms(cs), QuadraticTerms(q, |q.values|), Constant(cs))
  }

  method BQPToPosiform(q: Csr<int>) returns (p: Posiform)
    requires q.Valid() && q.numRows == q.numCols
    ensures p == PosiformOf(q)
  {
    var diagonal := Diagonal(q);
    var cPrime, quadratic := SplitOffDiagonal(q, diagonal);
    assert cPrime == LinearCoefficients(q);
    var linear, cst := SplitLinear(cPrime);
    p := Posiform(q.numRows, linear, quadratic, cst);
  }

  method Diagonal(q: Csr<int>) returns (d: seq<int>)
    requires q.Valid() && q.numRows == q.numCols
    ensures |d| == q.numRows && forall i | 0 <= i < |d| :: d[i] == q.Lookup((i, i), 0)
  {
    d := [];
    for i := 0 to q.numRows
      invariant |d| == i
      invariant forall t | 0 <= t < i :: d[t] == q.Lookup((t, t), 0)
    {
      var v := q.Get(i, i, 0);
      d := d + [v.value];
    }
  }

  /** Negative off-diagonal entries before flat index `k` are in `cPrime`, all off-diagonal ones in `quadratic`. */
  ghost predicate SplitTo(q: Csr<int>, d: seq<int>, k: nat, cPrime: seq<int>, quadratic: seq<QuadraticTerm>)
    requires q.Valid()
  {
    && k <= |q.values| && |cPrime| == |d| == q.numRows && quadratic == QuadraticTerms(q, k)
    && forall t | 0 <= t < |d| :: cPrime[t] == d[t] + NegativeSum(q, t, k)
  }

  method SplitEntry(q: Csr<int>, ghost d: seq<int>, i: nat, j: nat, cPrime0: seq<int>, quadratic0: seq<QuadraticTerm>)
    returns (cPrime: seq<int>, quadratic: seq<QuadraticTerm>)
    requires q.Valid() && q.InRow(i, j) && j < |q.values| && SplitTo(q, d, j, cPrime0, quadratic0)
    ensures SplitTo(q, d, j + 1, cPrime, quadratic)
  {
    cPrime, quadratic := cPrime0, quadratic0;
    q.RowIs(i, j);
    var r: int, c: int, v := i, q.colIndices[j], q.values[j];
    assert q.KeyAt(j) == (i, q.colIndices[j]);
    if r != c {
      if v < 0 {
        cPrime := cPrime[i := cPrime[i] + v];
        quadratic := quadratic + [QuadraticTerm(r + 1, -(c + 1), -v)];
      } else if v > 0 {
        quadratic := quadratic + [QuadraticTerm(r + 1, c + 1, v)];
      }
    }
  }

  method SplitOffDiagonal(q: Csr<int>, d: seq<int>) returns (cPrime: seq<int>, quadratic: seq<QuadraticTerm>)
    requires q.Valid() && |d| == q.numRows
    ensures SplitTo(q, d, |q.values|, cPrime, quadratic)
  {
    cPrime, quadratic := d, [];
    for i := 0 to q.numRows
      invariant SplitTo(q, d, q.rowOffsets[i], cPrime, quadratic)
    {
      var start, end := q.rowOffsets[i], q.rowOffsets[i + 1];
      assert end <= q.rowOffsets[q.numRows];
      for j := start to end
        invariant SplitTo(q, d, j, cPrime, quadratic)
      {
        cPrime, quadratic := SplitEntry(q, d, i, j, cPrime, quadratic);
      }
    }
  }

  method SplitLinear(cPrime: seq<int>) returns (linear: seq<LinearTerm>, cst: int)
    ensures linear == LinearTerms(cPrime) && cst == Constant(cPrime)
  {
    linear, cst := [], 0;
    for i := 0 to |cPrime|
      invariant linear == LinearTerms(cPrime[..i]) && cst == Constant(cPrime[..i])
    {
      assert cPrime[..i + 1][..i] == cPrime[..i];
      if cPrime[i] < 0 {
        cst := cst + cPrime[i];
        linear := linear + [LinearTerm(-(i + 1), -cPrime[i])];
      } else if cPrime[i] > 0 {
        linear := linear + [LinearTerm(i + 1, cPrime[i])];
      }
    }
    assert cPrime[..|cPrime|] == cPrime;
  }

  // ---------------------------------------------------------------- the posiform is the QUBO

  ghost function Dot(s: seq<int>, x: Assignment): int
    requires |s| == |x|
  {
    if s == [] then 0 else
      var i := |s| - 1;
      Dot(s[..i], x[..i]) + if x[i] then s[i] else 0
  }

  lemma {:induction false} DotUpdate(s: seq<int>, t: seq<int>, x: Assignment, i: nat, d: int)
    requires |s| == |t| == |x| && i < |s| && t == s[i := s[i] + d]
    ensures Dot(t, x) == Dot(s, x) + if x[i] then d else 0
  {
    var l := |s| - 1;
    if i < l {
      DotUpdate(s[..l], t[..l], x[..l], i, d);
    } else {
      assert s[..l] == t[..l];
    }
  }

  lemma {:induction false} DotZero(s: seq<int>, x: Assignment)
    requires |s| == |x| && forall i | 0 <= i < |s| :: s[i] == 0
    ensures Dot(s, x) == 0
  {
    if s != [] {
      DotZero(s[..|s| - 1], x[..|s| - 1]);
    }
  }

  /** The diagonal entry of row `i` if it is among the first `k` entries. */
  ghost function DiagonalSum(q: Csr<int>, i: nat, k: nat): int
    requires q.Valid() && k <= |q.values|
  {
    if k == 0 then 0 else
      DiagonalSum(q, i, k - 1) + if q.KeyAt(k - 1) == (i, i) then q.values[k - 1] else 0
  }

  lemma {:induction false} DiagonalSumIsLookup(q: Csr<int>, i: nat, k: nat)
    requires q.Valid() && k <= |q.values|
    ensures DiagonalSum(q, i, k) == if (i, i) in q.ViewTo(k) then q.ViewTo(k)[(i, i)] else 0
  {
    if k > 0 {
      DiagonalSumIsLookup(q, i, k - 1);
      if q.KeyAt(k - 1) == (i, i) && (i, i) in q.ViewTo(k - 1) {
        q.ViewToOnly(k - 1, (i, i));
        q.KeysDistinct();
      }
    }
  }

  ghost function PartialCoefficients(q: Csr<int>, k: nat): (s: seq<int>)
    requires q.Valid() && k <= |q.values|
    ensures |s| == q.numRows
  {
    seq(q.numRows, i requires 0 <= i < q.numRows => DiagonalSum(q, i, k) + NegativeSum(q, i, k))
  }

  ghost predicate InRange(n: nat, ts: seq<QuadraticTerm>) {
    forall t | t in ts :: IsLiteral(n, t.lit1) && IsLiteral(n, t.lit2)
  }

  lemma TermAtInRange(q: Csr<int>, k: nat)
    requires q.Valid() && q.numRows == q.numCols && k < |q.values|
    ensures InRange(q.numRows, TermAt(q, k))
    ensures forall t | t in TermAt(q, k) :: Abs(t.lit1) != Abs(t.lit2) && t.lit1 > 0 && t.coeff > 0
    ensures forall t | t in TermAt(q, k) :: q.KeyAt(k) == (Abs(t.lit1) - 1, Abs(t.lit2) - 1)
  {
  }

  lemma {:induction false} TermsInRange(q: Csr<int>, k: nat)
    requires q.Valid() && q.numRows == q.numCols && k <= |q.values|
    ensures InRange(q.numRows, QuadraticTerms(q, k))
    ensures forall t | t in QuadraticTerms(q, k) :: Abs(t.lit1) != Abs(t.lit2) && t.lit1 > 0 && t.coeff > 0
  {
    if k > 0 {
      TermsInRange(q, k - 1);
      TermAtInRange(q, k - 1);
    }
  }

  lemma {:induction false} TermOrigin(q: Csr<int>, k: nat, t: QuadraticTerm)
    requires q.Valid() && k <= |q.values| && t in QuadraticTerms(q, k)
    ensures exists j: nat :: j < k && t in TermAt(q, j)
  {
    if t !in TermAt(q, k - 1) {
      TermOrigin(q, k - 1, t);
    }
  }

  /** The part of entry `k` that the posiform keeps in a linear coefficient. */
  ghost function EntryLinear(q: Csr<int>, x: Assignment, k: nat): int
    requires q.Valid() && q.numRows == q.numCols == |x| && k < |q.values|
  {
    var (r, c) := q.KeyAt(k);
    if x[r] && (r == c || q.values[k] < 0) then q.values[k] else 0
  }

  lemma EnergyStep(q: Csr<int>, x: Assignment, k: nat)
    requires q.Valid() && q.numRows == q.numCols == |x| && k < |q.values|
    ensures EntryEnergy(q, x, k) == QuadraticValue(TermAt(q, k), x) + EntryLinear(q, x, k)
  {
    var ts := TermAt(q, k);
    if ts != [] {
      assert ts[..0] == [];
    }
  }

  lemma QuadraticValueAppend(ts: seq<QuadraticTerm>, us: seq<QuadraticTerm>, x: Assignment)
    requires |us| <= 1
    ensures QuadraticValue(ts + us, x) == QuadraticValue(ts, x) + QuadraticValue(us, x)
  {
    if us == [] {
      assert ts + us == ts;
    } else {
      assert (ts + us)[..|ts|] == ts && us[..0] == [];
    }
  }

  lemma CoefficientStep(q: Csr<int>, x: Assignment, k: nat)
    requires q.Valid() && q.numRows == q.numCols == |x| && k < |q.values|
    ensures Dot(PartialCoefficients(q, k + 1), x) == Dot(PartialCoefficients(q, k), x) + EntryLinear(q, x, k)
  {
    var ((r, c), v) := (q.KeyAt(k), q.values[k]);
    var before, after := PartialCoefficients(q, k), PartialCoefficients(q, k + 1);
    var d := if r == c || v < 0 then v else 0;
    DotUpdate(before, before[r := before[r] + d], x, r, d);
    assert after == before[r := before[r] + d];
  }

  ghost function LinearPart(q: Csr<int>, x: Assignment, k: nat): int
    requires q.Valid() && q.numRows == q.numCols == |x| && k <= |q.values|
  {
    if k == 0 then 0 else LinearPart(q, x, k - 1) + EntryLinear(q, x, k - 1)
  }

  ghost function QuadraticPart(q: Csr<int>, x: Assignment, k: nat): int
    requires q.Valid() && k <= |q.values|
  {
    if k == 0 then 0 else QuadraticPart(q, x, k - 1) + QuadraticValue(TermAt(q, k - 1), x)
  }

  lemma {:induction false} EnergySplits(q: Csr<int>, x: Assignment, k: nat)
    requires q.Valid() && q.numRows == q.numCols == |x| && k <= |q.values|
    ensures EnergyTo(q, x, k) == LinearPart(q, x, k) + QuadraticPart(q, x, k)
  {
    if k > 0 {
      EnergySplits(q, x, k - 1);
      EnergyStep(q, x, k - 1);
    }
  }

  lemma {:induction false} QuadraticPartIsValue(q: Csr<int>, x: Assignment, k: nat)
    requires q.Valid() && k <= |q.values|
    ensures QuadraticPart(q, x, k) == QuadraticValue(QuadraticTerms(q, k), x)
  {
    if k > 0 {
      QuadraticPartIsValue(q, x, k - 1);
      QuadraticValueAppend(QuadraticTerms(q, k - 1), TermAt(q, k - 1), x);
    }
  }

  lemma {:induction false} LinearPartIsDot(q: Csr<int>, x: Assignment, k: nat)
    requires q.Valid() && q.numRows == q.numCols == |x| && k <= |q.values|
    ensures LinearPart(q, x, k) == Dot(PartialCoefficients(q, k), x)
  {
    if k == 0 {
      DotZero(PartialCoefficients(q, 0), x);
    } else {
      LinearPartIsDot(q, x, k - 1);
      CoefficientStep(q, x, k - 1);
    }
  }

  lemma CoefficientsComplete(q: Csr<int>)
    requires q.Valid() && q.numRows == q.numCols
    ensures PartialCoefficients(q, |q.values|) == LinearCoefficients(q)
  {
    var a, b := PartialCoefficients(q, |q.values|), LinearCoefficients(q);
    forall i: nat | i < q.numRows
      ensures a[i] == b[i]
    {
      DiagonalSumIsLookup(q, i, |q.values|);
    }
  }

  lemma {:induction false} LinearTermsValue(cs: seq<int>, x: Assignment)
    requires |cs| == |x|
    ensures forall t | t in LinearTerms(cs) :: IsLiteral(|cs|, t.lit) && t.coeff > 0
    ensures Dot(cs, x) == Constant(cs) + LinearValue(LinearTerms(cs), x)
  {
    if cs != [] {
      var i := |cs| - 1;
      LinearTermsValue(cs[..i], x[..i]);
      var ts := LinearTerms(cs);
      LinearValueOfPrefix(LinearTerms(cs[..i]), x, i);
      assert ts == LinearTerms(cs[..i]) || ts[..|ts| - 1] == LinearTerms(cs[..i]);
    }
  }

  lemma {:induction false} LinearValueOfPrefix(ts: seq<LinearTerm>, x: Assignment, n: nat)
    requires n <= |x| && forall t | t in ts :: IsLiteral(n, t.lit)
    ensures LinearValue(ts, x[..n]) == LinearValue(ts, x)
  {
    if ts != [] {
      assert ts[|ts| - 1] in ts;
      LinearValueOfPrefix(ts[..|ts| - 1], x, n);
    }
  }

  /** For every assignment the posiform has the value of the QUBO, and only its constant can be negative. */
  lemma PosiformEqualsQubo(q: Csr<int>, x: Assignment)
    requires q.Valid() && q.numRows == q.numCols == |x|
    ensures PosiformOf(q).Positive() && PosiformOf(q).numVars == |x|
    ensures PosiformValue(PosiformOf(q), x) == Energy(q, x)
  {
    var n, nnz, cs := q.numRows, |q.values|, LinearCoefficients(q);
    TermsInRange(q, nnz);
    EnergySplits(q, x, nnz);
    LinearTermsValue(cs, x);
    CoefficientsComplete(q);
    LinearPartIsDot(q, x, nnz);
    QuadraticPartIsValue(q, x, nnz);
  }

  ghost predicate UpperTriangular(q: Csr<int>)
    requires q.Valid()
  {
    forall k: nat | k < |q.values| :: q.KeyAt(k).0 <= q.KeyAt(k).1
  }

  lemma {:induction false} LinearTermsMerged(cs: seq<int>)
    ensures forall t | t in LinearTerms(cs) :: 1 <= Abs(t.lit) <= |cs|
    ensures forall i, j | 0 <= i < j < |LinearTerms(cs)| :: Abs(LinearTerms(cs)[i].lit) != Abs(LinearTerms(cs)[j].lit)
  {
    if cs != [] {
      LinearTermsMerged(cs[..|cs| - 1]);
    }
  }

  lemma {:induction false} QuadraticTermsMerged(q: Csr<int>, k: nat)
    requires q.Valid() && q.numRows == q.numCols && k <= |q.values| && UpperTriangular(q)
    ensures forall i, j | 0 <= i < j < |QuadraticTerms(q, k)| ::
              Posiform.Pair(QuadraticTerms(q, k)[i]) != Posiform.Pair(QuadraticTerms(q, k)[j])
  {
    if k > 0 {
      QuadraticTermsMerged(q, k - 1);
      var rest, last := QuadraticTerms(q, k - 1), TermAt(q, k - 1);
      if last != [] {
        forall i | 0 <= i < |rest|
          ensures Posiform.Pair(rest[i]) != Posiform.Pair(last[0])
        {
          FreshPair(q, k - 1, rest[i], last[0]);
        }
      }
    }
  }

  lemma FreshPair(q: Csr<int>, k: nat, earlier: QuadraticTerm, last: QuadraticTerm)
    requires q.Valid() && q.numRows == q.numCols && k < |q.values| && UpperTriangular(q)
    requires earlier in QuadraticTerms(q, k) && last in TermAt(q, k)
    ensures Posiform.Pair(earlier) != Posiform.Pair(last)
  {
    TermOrigin(q, k, earlier);
    var j: nat :| j < k && earlier in TermAt(q, j);
    PairIsKey(q, j);
    PairIsKey(q, k);
    q.Ordered(j, k);
  }

  lemma PairIsKey(q: Csr<int>, k: nat)
    requires q.Valid() && q.numRows == q.numCols && k < |q.values| && UpperTriangular(q)
    ensures forall t | t in TermAt(q, k) :: Posiform.Pair(t) == (q.KeyAt(k).0 + 1, q.KeyAt(k).1 + 1)
  {
    TermAtInRange(q, k);
  }

  /** An upper-triangular QUBO gives at most one term per variable and per pair of variables. */
  lemma PosiformMerged(q: Csr<int>)
    requires q.Valid() && q.numRows == q.numCols && UpperTriangular(q)
    ensures PosiformOf(q).Merged()
  {
    LinearTermsMerged(LinearCoefficients(q));
    QuadraticTermsMerged(q, |q.values|);
  }
}
