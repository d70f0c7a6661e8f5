/** A problem whose coefficients do not survive the scaling to integers, and whose fixed values are wrong for it. */
module TruncationExample {
  import opened Arithmetic
  import opened CompressedMatrices
  import opened Fixings
  import opened QuboFixing
  import opened QuboScaling
  import opened Results
  import opened TruncationLoss
  import FixQubo
  import Posiforms = PosiformConstruction
  import Qubo
  import RoofDuality
  import S = Substitution

  /** 2^53 */
  const LARGE: nat := 9007199254740992

  /** x0 - 3/4 x0 x1 - 3/4 x0 x2 - 2^53 x2, whose scale factor is 1. */
  function Misleading(): Csr<real> {
    Csr(3, 3, [0, 3, 3, 4], [0, 1, 2, 2], [1.0, -0.75, -0.75, 0.0 - LARGE as real])
  }

  /** The same after truncation: x0 - 2^53 x2. */
  function Misled(): Csr<int> {
    Csr(3, 3, [0, 3, 3, 4], [0, 1, 2, 2], [1, 0, 0, 0 - LARGE])
  }

  lemma Layout<T>(c: Csr<T>)
    requires c.numRows == c.numCols == 3 && c.rowOffsets == [0, 3, 3, 4] && c.colIndices == [0, 1, 2, 2] && |c.values| == 4
    ensures c.Valid()
    ensures c.KeyAt(0) == (0, 0) && c.KeyAt(1) == (0, 1) && c.KeyAt(2) == (0, 2) && c.KeyAt(3) == (2, 2)
  {
    assert c.InRow(0, 0) && c.InRow(0, 1) && c.InRow(0, 2) && c.InRow(2, 3);
    c.RowIs(0, 0);
    c.RowIs(0, 1);
    c.RowIs(0, 2);
    c.RowIs(2, 3);
  }

  lemma MisleadingEnergy(x: seq<bool>)
    requires |x| == 3
    ensures Misleading().Valid()
    ensures S.Energy(Misleading(), x) == (if x[0] then 1.0 else 0.0) - (if x[0] && x[1] then 0.75 else 0.0)
                                       - (if x[0] && x[2] then 0.75 else 0.0) - (if x[2] then LARGE as real else 0.0)
  {
    var q := Misleading();
    Layout(q);
    assert S.EnergyTo(q, x, 1) == if x[0] then 1.0 else 0.0;
    assert S.EnergyTo(q, x, 2) == S.EnergyTo(q, x, 1) - if x[0] && x[1] then 0.75 else 0.0;
    assert S.EnergyTo(q, x, 3) == S.EnergyTo(q, x, 2) - if x[0] && x[2] then 0.75 else 0.0;
    assert S.EnergyTo(q, x, 4) == S.EnergyTo(q, x, 3) - if x[2] then LARGE as real else 0.0;
  }

  /** Every optimal solution sets x0. */
  lemma MisleadingOptimum(x: seq<bool>)
    requires Misleading().Valid() && Optimal(Misleading(), x)
    ensures x[0]
  {
    var best := [true, true, true];
    MisleadingEnergy(x);
    MisleadingEnergy(best);
    assert S.Energy(Misleading(), x) <= S.Energy(Misleading(), best);
  }

  lemma MisledPosiform()
    ensures FixQubo.IsQubo(Misled())
    ensures Posiforms.PosiformOf(Misled()).numVars == 3 && Posiforms.PosiformOf(Misled()).quadratic == []
    ensures Posiforms.PosiformOf(Misled()).linear == [Qubo.LinearTerm(1, 1), Qubo.LinearTerm(-3, LARGE)]
  {
    var z := Misled();
    Layout(z);
    UpperEntries(z);
    MisledQuadratic(z);
    MisledCoefficients(z);
    var cs := Posiforms.LinearCoefficients(z);
    assert cs == [1, 0, 0 - LARGE];
    assert cs[..2] == [1, 0] && cs[..1] == [1] && [1, 0][..1] == [1] && cs[..0] == [];
    assert Posiforms.LinearTerms([1]) == [Qubo.LinearTerm(1, 1)];
    assert Posiforms.LinearTerms([1, 0]) == [Qubo.LinearTerm(1, 1)];
  }

  lemma UpperEntries(z: Csr<int>)
    requires z == Misled() && z.Valid()
    requires z.KeyAt(0) == (0, 0) && z.KeyAt(1) == (0, 1) && z.KeyAt(2) == (0, 2) && z.KeyAt(3) == (2, 2)
    ensures FixQubo.IsQubo(z)
  {
    forall k: nat | k < |z.values|
      ensures z.KeyAt(k).0 <= z.KeyAt(k).1
    {
      assert k == 0 || k == 1 || k == 2 || k == 3;
    }
  }

  lemma MisledQuadratic(z: Csr<int>)
    requires z == Misled() && z.Valid()
    requires z.KeyAt(0) == (0, 0) && z.KeyAt(1) == (0, 1) && z.KeyAt(2) == (0, 2) && z.KeyAt(3) == (2, 2)
    ensures Posiforms.QuadraticTerms(z, 4) == []
  {
    assert Posiforms.QuadraticTerms(z, 1) == [];
    assert Posiforms.QuadraticTerms(z, 2) == [];
    assert Posiforms.QuadraticTerms(z, 3) == [];
  }

  lemma MisledCoefficients(z: Csr<int>)
    requires z == Misled() && z.Valid()
    requires z.KeyAt(0) == (0, 0) && z.KeyAt(1) == (0, 1) && z.KeyAt(2) == (0, 2) && z.KeyAt(3) == (2, 2)
    ensures Posiforms.LinearCoefficients(z) == [1, 0, 0 - LARGE]
  {
    forall i: nat | i < 3
      ensures Posiforms.NegativeSum(z, i, 4) == 0
    {
      assert Posiforms.NegativeSum(z, i, 1) == 0;
      assert Posiforms.NegativeSum(z, i, 2) == 0;
      assert Posiforms.NegativeSum(z, i, 3) == 0;
    }
    z.ViewAt(0);
    z.ViewAt(3);
    z.NotStored(1, 1);
  }

  /** Every minimum cut of the truncated problem makes x0 false. */
  lemma MisledCut(s: set<int>)
    requires RoofDuality.MinimumCut(Posiforms.PosiformOf(Misled()), s)
    ensures -1 in s
  {
    MisledPosiform();
    var p, none := Posiforms.PosiformOf(Misled()), {0, -1, 3};
    assert RoofDuality.IsCut(3, none);
    MisledCapacity(none);
    MisledCapacity(s);
    assert RoofDuality.Cut(p, s) <= RoofDuality.Cut(p, none);
  }

  lemma MisledCapacity(s: set<int>)
    requires FixQubo.IsQubo(Misled())
    ensures RoofDuality.Cut(Posiforms.PosiformOf(Misled()), s) == RoofDuality.LinearArcs(1, s) + LARGE * RoofDuality.LinearArcs(-3, s)
  {
    MisledPosiform();
    var first, last := Qubo.LinearTerm(1, 1), Qubo.LinearTerm(-3, LARGE);
    assert [first, last][..1] == [first] && [first][..0] == [];
    assert RoofDuality.LinearCut([first], s) == RoofDuality.LinearArcs(1, s);
    assert RoofDuality.LinearCut([first, last], s) == RoofDuality.LinearCut([first], s) + LARGE * RoofDuality.LinearArcs(-3, s);
  }

  lemma MisleadingUpper()
    requires Misleading().Valid()
    ensures Upper(Misleading()) == map[(0, 0) := 1.0, (0, 1) := -0.75, (0, 2) := -0.75, (2, 2) := 0.0 - LARGE as real]
  {
    var q := Misleading();
    Layout(q);
    assert UpperTo(q, 1) == map[(0, 0) := 1.0];
    assert UpperTo(q, 2) == map[(0, 0) := 1.0, (0, 1) := -0.75];
    assert UpperTo(q, 3) == map[(0, 0) := 1.0, (0, 1) := -0.75, (0, 2) := -0.75];
  }

  lemma MisledView()
    requires Misled().Valid()
    ensures Misled().View() == map[(0, 0) := 1, (0, 1) := 0, (0, 2) := 0, (2, 2) := 0 - LARGE]
  {
    var z := Misled();
    Layout(z);
    assert z.ViewTo(1) == map[(0, 0) := 1];
    assert z.ViewTo(2) == map[(0, 0) := 1, (0, 1) := 0];
    assert z.ViewTo(3) == map[(0, 0) := 1, (0, 1) := 0, (0, 2) := 0];
  }

  /** The scale factor of the problem is 1, and its integer problem is the truncated one. */
  lemma MisleadingScaled()
    ensures Misleading().Valid() && Misled().Valid()
    ensures IsRatio(Upper(Misleading()), 1.0) && IsTruncated(Misled().View(), Scaled(Misleading(), 1.0))
  {
    Layout(Misleading());
    Layout(Misled());
    MisleadingUpper();
    MisledView();
    var m := Upper(Misleading());
    assert (2, 2) in m && AbsReal(m[(2, 2)]) == LARGE as real;
    assert IsMaxAbs(m, LARGE as real);
    assert Ratio(LARGE as real) == 1.0;
  }

  /** The standard method fixes x0 to 0 in the truncated problem, against every optimal solution of the original. */
  lemma TruncationMisleads(all: seq<Fixing>, x: seq<bool>)
    requires FixQubo.IsQubo(Misled()) && Fixes(Misled(), 2, all)
    requires Misleading().Valid() && Optimal(Misleading(), x)
    ensures (1, 0) in all && !Agrees(x, all)
  {
    MisledCut(Fixed(all));
    MisleadingOptimum(x);
    FixedLiteral(all, -1);
  }

  lemma MisleadingFixes(ratio: real, z: Csr<int>, all: seq<Fixing>)
    requires IsIntegerProblem(Misleading(), ratio, z) && Fixes(z, 2, all) && IsRatio(Upper(Misleading()), ratio)
    ensures (1, 0) in all
  {
    MisleadingScaled();
    SameRatio(Upper(Misleading()), ratio, 1.0);
    MisledPosiform();
    SameIntegerProblem(Misleading(), ratio, z, Misled());
    MisledCut(Fixed(all));
    FixedLiteral(all, -1);
  }

  lemma FirstIsUsed()
    ensures Misleading().Valid() && UsedTo(Misleading(), 4, 0)
  {
    Layout(Misleading());
  }

  /** So whatever the whole procedure reports for the problem breaks the promise. */
  lemma MisleadingBroken(ratio: real, fixed: seq<Fixing>)
    requires FixedFrom(Misleading(), 2, ratio, fixed) && Misleading().Valid() && IsRatio(Upper(Misleading()), ratio)
    ensures (1, 0) in fixed && !HoldsInSomeOptimum(Misleading(), fixed)
  {
    var z, all := ReportedFrom(Misleading(), 2, ratio, fixed);
    MisleadingFixes(ratio, z, all);
    FirstIsUsed();
    forall x: seq<bool> | Optimal(Misleading(), x)
      ensures !Agrees(x, fixed)
    {
      MisleadingOptimum(x);
    }
  }

  method FixMisleading(maxFlow: FixQubo.FlowRoutine, strong: FixQubo.ComponentRoutine) returns (r: Result<FixVariablesResult>)
    requires FixQubo.FindsMaximumFlows(maxFlow) && FixQubo.FindsComponents(strong)
    ensures Misleading().Valid()
    ensures r.Success? && (1, 0) in r.value.fixedVars && !HoldsInSomeOptimum(Misleading(), r.value.fixedVars)
    ensures !Separated(Scaled(Misleading(), 1.0))
  {
    ghost var ratio;
    Layout(Misleading());
    r, ratio := FixQuboVariables(Misleading(), 2, maxFlow, strong);
    MisleadingBroken(ratio, r.value.fixedVars);
    MisleadingScaled();
    SameRatio(Upper(Misleading()), ratio, 1.0);
  }
}
