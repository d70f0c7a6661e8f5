/** Quadratic pseudo-Boolean functions and the posiforms they are rewritten to.

A literal is a nonzero integer: `i + 1` stands for variable `i` and `-(i + 1)` for its negation. */
module Qubo {
  import opened CompressedMatrices

  type Assignment = seq<bool>

  /** What stored entry `k` contributes to x'Qx. */
  ghost function EntryEnergy(q: Csr<int>, x: Assignment, k: nat): int
    requires q.Valid() && k < |q.values| && |x| == q.numRows == q.numCols
  {
    if x[q.KeyAt(k).0] && x[q.KeyAt(k).1] then q.values[k] else 0
  }

  /** The value of x'Qx restricted to the first `k` stored entries. */
  ghost function EnergyTo(q: Csr<int>, x: Assignment, k: nat): int
    requires q.Valid() && k <= |q.values| && |x| == q.numRows == q.numCols
  {
    if k == 0 then 0 else EnergyTo(q, x, k - 1) + EntryEnergy(q, x, k - 1)
  }

  ghost function Energy(q: Csr<int>, x: Assignment): int
    requires q.Valid() && |x| == q.numRows == q.numCols
  {
    EnergyTo(q, x, |q.values|)
  }

  ghost predicate Optimal(q: Csr<int>, x: Assignment)
    requires q.Valid() && q.numRows == q.numCols
  {
    |x| == q.numRows && forall y: Assignment | |y| == q.numRows :: Energy(q, x) <= Energy(q, y)
  }

  function Abs(lit: int): nat {
    if lit < 0 then -lit else lit
  }

  predicate IsLiteral(n: nat, lit: int) {
    lit != 0 && Abs(lit) <= n
  }

  predicate Holds(lit: int, x: Assignment) {
    IsLiteral(|x|, lit) && if lit > 0 then x[lit - 1] else !x[-lit - 1]
  }

  datatype LinearTerm = LinearTerm(lit: int, coeff: int)
  datatype QuadraticTerm = QuadraticTerm(lit1: int, lit2: int, coeff: int)
  datatype Posiform = Posiform(numVars: nat, linear: seq<LinearTerm>, quadratic: seq<QuadraticTerm>, cst: int)
  {
    /** All literals name variables and no coefficient but the constant is negative or zero. */
    ghost predicate Positive() {
      && (forall t | t in linear :: IsLiteral(numVars, t.lit) && t.coeff > 0)
      && (forall t | t in quadratic ::
            IsLiteral(numVars, t.lit1) && IsLiteral(numVars, t.lit2) && Abs(t.lit1) != Abs(t.lit2) &&
            (t.lit1 > 0 || t.lit2 > 0) && t.coeff > 0)
    }

    /** No two terms speak about the same variable or the same pair of variables. */
    ghost predicate Merged() {
      && (forall i, j | 0 <= i < j < |linear| :: Abs(linear[i].lit) != Abs(linear[j].lit))
      && (forall i, j | 0 <= i < j < |quadratic| :: Pair(quadratic[i]) != Pair(quadratic[j]))
    }

    static function Pair(t: QuadraticTerm): (nat, nat) {
      var a, b := Abs(t.lit1), Abs(t.lit2);
      if a < b then (a, b) else (b, a)
    }
  }

  ghost function LinearValue(ts: seq<LinearTerm>, x: Assignment): int
  {
    if ts == [] then 0 else
      var t := ts[|ts| - 1];
      LinearValue(ts[..|ts| - 1], x) + if Holds(t.lit, x) then t.coeff else 0
  }

  ghost function QuadraticValue(ts: seq<QuadraticTerm>, x: Assignment): int
  {
    if ts == [] then 0 else
      var t := ts[|ts| - 1];
      QuadraticValue(ts[..|ts| - 1], x) + if Holds(t.lit1, x) && Holds(t.lit2, x) then t.coeff else 0
  }

  ghost function PosiformValue(p: Posiform, x: Assignment): int
  {
    p.cst + LinearValue(p.linear, x) + QuadraticValue(p.quadratic, x)
  }
}
