/** A problem with small integer coefficients and two optimal solutions, of which truncation keeps one. */
module TiedExample {
  import opened Arithmetic
  import opened CompressedMatrices
  import opened Fixings
  import opened QuboFixing
  import opened QuboScaling
  import opened Results
  import opened TruncationLoss
  import FixQubo
  import Posiforms = PosiformConstruction
  import Qubo
  import RoofDuality
  import S = Substitution

  /** 2^53 */
  const LARGE: nat := 9007199254740992

  /** 2^53 / 3, rounded down */
  const THIRD: nat := 3002399751580330

  function Shape<T>(values: seq<T>): Csr<T> {
    Csr(3, 3, [0, 2, 3, 4], [0, 1, 1, 2], values)
  }

  /** x0 + x1 - 2 x0 x1 + 3 x2, which is 0 where x0 == x1 and not x2. */
  function Tied(): Csr<real> {
    Shape([1.0, -2.0, 1.0, 3.0])
  }

  /** The same after scaling by 2^53 / 3 and truncation. */
  function Untied(): Csr<int> {
    Shape([THIRD, -(2 * THIRD + 1), THIRD, LARGE])
  }

  lemma Layout<T>(values: seq<T>)
    requires |values| == 4
    ensures Shape(values).Valid()
    ensures var c := Shape(values); c.KeyAt(0) == (0, 0) && c.KeyAt(1) == (0, 1) && c.KeyAt(2) == (1, 1) && c.KeyAt(3) == (2, 2)
  {
    var c := Shape(values);
    assert c.InRow(0, 0) && c.InRow(0, 1) && c.InRow(1, 2) && c.InRow(2, 3);
    c.RowIs(0, 0);
    c.RowIs(0, 1);
    c.RowIs(1, 2);
    c.RowIs(2, 3);
  }

  lemma TiedEnergy(x: seq<bool>)
    requires |x| == 3
    ensures Tied().Valid()
    ensures S.Energy(Tied(), x) == (if x[0] then 1.0 else 0.0) - (if x[0] && x[1] then 2.0 else 0.0)
                                 + (if x[1] then 1.0 else 0.0) + (if x[2] then 3.0 else 0.0)
  {
    var q := Tied();
    Layout(q.values);
    assert S.EnergyTo(q, x, 1) == if x[0] then 1.0 else 0.0;
    assert S.EnergyTo(q, x, 2) == S.EnergyTo(q, x, 1) - if x[0] && x[1] then 2.0 else 0.0;
    assert S.EnergyTo(q, x, 3) == S.EnergyTo(q, x, 2) + if x[1] then 1.0 else 0.0;
    assert S.EnergyTo(q, x, 4) == S.EnergyTo(q, x, 3) + if x[2] then 3.0 else 0.0;
  }

  lemma TiedOptimum()
    ensures Tied().Valid() && Optimal(Tied(), [false, false, false])
  {
    TiedEnergy([false, false, false]);
    forall y: seq<bool> | |y| == 3
      ensures S.Energy(Tied(), [false, false, false]) <= S.Energy(Tied(), y)
    {
      TiedEnergy(y);
    }
  }

  lemma UntiedQuadratic(z: Csr<int>)
    requires z == Untied() && z.Valid()
    requires z.KeyAt(0) == (0, 0) && z.KeyAt(1) == (0, 1) && z.KeyAt(2) == (1, 1) && z.KeyAt(3) == (2, 2)
    ensures Posiforms.QuadraticTerms(z, 4) == [Qubo.QuadraticTerm(1, -2, 2 * THIRD + 1)]
  {
    assert Posiforms.QuadraticTerms(z, 1) == [];
    assert Posiforms.QuadraticTerms(z, 2) == [Qubo.QuadraticTerm(1, -2, 2 * THIRD + 1)];
    assert Posiforms.QuadraticTerms(z, 3) == [Qubo.QuadraticTerm(1, -2, 2 * THIRD + 1)];
  }

  lemma UntiedNegative(z: Csr<int>, i: nat)
    requires z == Untied() && z.Valid()
    requires z.KeyAt(0) == (0, 0) && z.KeyAt(1) == (0, 1) && z.KeyAt(2) == (1, 1) && z.KeyAt(3) == (2, 2)
    ensures Posiforms.NegativeSum(z, i, 4) == if i == 0 then -(2 * THIRD + 1) else 0
  {
    assert Posiforms.NegativeSum(z, i, 1) == 0;
    assert Posiforms.NegativeSum(z, i, 2) == if i == 0 then -(2 * THIRD + 1) else 0;
    assert Posiforms.NegativeSum(z, i, 3) == Posiforms.NegativeSum(z, i, 2);
  }

  lemma UntiedCoefficients(z: Csr<int>)
    requires z == Untied() && z.Valid()
    requires z.KeyAt(0) == (0, 0) && z.KeyAt(1) == (0, 1) && z.KeyAt(2) == (1, 1) && z.KeyAt(3) == (2, 2)
    ensures Posiforms.LinearCoefficients(z) == [-(THIRD + 1), THIRD, LARGE]
  {
    UntiedNegative(z, 0);
    UntiedNegative(z, 1);
    UntiedNegative(z, 2);
    z.ViewAt(0);
    z.ViewAt(2);
    z.ViewAt(3);
  }

  lemma UntiedPosiform()
    ensures FixQubo.IsQubo(Untied())
    ensures var p := Posiforms.PosiformOf(Untied());
            p.numVars == 3 && p.quadratic == [Qubo.QuadraticTerm(1, -2, 2 * THIRD + 1)]
            && p.linear == [Qubo.LinearTerm(-1, THIRD + 1), Qubo.LinearTerm(2, THIRD), Qubo.LinearTerm(3, LARGE)]
  {
    var z := Untied();
    Layout(z.values);
    UpperEntries(z);
    UntiedQuadratic(z);
    UntiedCoefficients(z);
    var cs := Posiforms.LinearCoefficients(z);
    assert cs == [-(THIRD + 1), THIRD, LARGE];
    assert cs[..2] == [-(THIRD + 1), THIRD] && cs[..2][..1] == [-(THIRD + 1)] && cs[..1][..0] == [];
    assert Posiforms.LinearTerms([-(THIRD + 1)]) == [Qubo.LinearTerm(-1, THIRD + 1)];
    assert Posiforms.LinearTerms([-(THIRD + 1), THIRD]) == [Qubo.LinearTerm(-1, THIRD + 1), Qubo.LinearTerm(2, THIRD)];
  }

  lemma UpperEntries(z: Csr<int>)
    requires z == Untied() && z.Valid()
    requires z.KeyAt(0) == (0, 0) && z.KeyAt(1) == (0, 1) && z.KeyAt(2) == (1, 1) && z.KeyAt(3) == (2, 2)
    ensures FixQubo.IsQubo(z)
  {
    forall k: nat | k < |z.values|
      ensures z.KeyAt(k).0 <= z.KeyAt(k).1
    {
      assert k == 0 || k == 1 || k == 2 || k == 3;
    }
  }

  lemma UntiedCapacity(s: set<int>)
    requires FixQubo.IsQubo(Untied())
    ensures RoofDuality.Cut(Posiforms.PosiformOf(Untied()), s)
         == (THIRD + 1) * RoofDuality.LinearArcs(-1, s) + THIRD * RoofDuality.LinearArcs(2, s)
            + LARGE * RoofDuality.LinearArcs(3, s) + (2 * THIRD + 1) * RoofDuality.ArcPair(1, -2, s)
  {
    UntiedPosiform();
    var a, b, c, d := Qubo.LinearTerm(-1, THIRD + 1), Qubo.LinearTerm(2, THIRD), Qubo.LinearTerm(3, LARGE), Qubo.QuadraticTerm(1, -2, 2 * THIRD + 1);
    assert [a, b, c][..2] == [a, b] && [a, b][..1] == [a] && [a][..0] == [] && [d][..0] == [];
    assert RoofDuality.LinearCut([a], s) == (THIRD + 1) * RoofDuality.LinearArcs(-1, s);
    assert RoofDuality.LinearCut([a, b], s) == RoofDuality.LinearCut([a], s) + THIRD * RoofDuality.LinearArcs(2, s);
    assert RoofDuality.QuadraticCut([d], s) == (2 * THIRD + 1) * RoofDuality.ArcPair(1, -2, s);
  }

  /** Every minimum cut of the truncated problem makes x0 and x1 true. */
  lemma UntiedCut(s: set<int>)
    requires RoofDuality.MinimumCut(Posiforms.PosiformOf(Untied()), s)
    ensures 1 in s && 2 in s
  {
    UntiedPosiform();
    var both := {0, 1, 2, -3};
    assert RoofDuality.IsCut(3, both);
    UntiedCapacity(both);
    UntiedCapacity(s);
    assert RoofDuality.Cut(Posiforms.PosiformOf(Untied()), s) <= 2 * THIRD;
  }

  lemma TiedUpper()
    requires Tied().Valid()
    ensures Upper(Tied()) == map[(0, 0) := 1.0, (0, 1) := -2.0, (1, 1) := 1.0, (2, 2) := 3.0]
    ensures IsMaxAbs(Upper(Tied()), 3.0) && Integral(Upper(Tied())) && |Upper(Tied()).Keys| == 4
  {
    var q := Tied();
    Layout(q.values);
    assert UpperTo(q, 1) == map[(0, 0) := 1.0];
    assert UpperTo(q, 2) == map[(0, 0) := 1.0, (0, 1) := -2.0];
    assert UpperTo(q, 3) == map[(0, 0) := 1.0, (0, 1) := -2.0, (1, 1) := 1.0];
    var m := Upper(q);
    assert (2, 2) in m && AbsReal(m[(2, 2)]) == 3.0;
    assert m.Keys == {(0, 0), (0, 1), (1, 1), (2, 2)};
  }

  lemma UntiedView()
    requires Untied().Valid()
    ensures Untied().View() == map[(0, 0) := THIRD, (0, 1) := -(2 * THIRD + 1), (1, 1) := THIRD, (2, 2) := LARGE]
  {
    var z := Untied();
    Layout(z.values);
    assert z.ViewTo(1) == map[(0, 0) := THIRD];
    assert z.ViewTo(2) == map[(0, 0) := THIRD, (0, 1) := -(2 * THIRD + 1)];
    assert z.ViewTo(3) == map[(0, 0) := THIRD, (0, 1) := -(2 * THIRD + 1), (1, 1) := THIRD];
  }

  lemma ThirdTruncated(ratio: real)
    requires ratio == LARGE as real / 3.0
    ensures Truncate(1.0 * ratio) == THIRD && Truncate(-2.0 * ratio) == -(2 * THIRD + 1) && Truncate(3.0 * ratio) == LARGE
  {
  }

  lemma TiedRatio()
    ensures Ratio(3.0) == LARGE as real / 3.0
  {
  }

  lemma TruncatedEntries(m: map<Key, real>, z: map<Key, int>, ratio: real)
    requires m == map[(0, 0) := 1.0, (0, 1) := -2.0, (1, 1) := 1.0, (2, 2) := 3.0] && ratio == LARGE as real / 3.0
    requires z == map[(0, 0) := THIRD, (0, 1) := -(2 * THIRD + 1), (1, 1) := THIRD, (2, 2) := LARGE]
    ensures IsTruncated(z, Times(m, ratio))
  {
    ThirdTruncated(ratio);
  }

  /** The scale factor is 2^53 / 3, truncation gives the other problem, and optimal solutions stay apart from the rest. */
  lemma TiedScaled()
    ensures Tied().Valid() && Untied().Valid()
    ensures IsRatio(Upper(Tied()), Ratio(3.0)) && IsTruncated(Untied().View(), Scaled(Tied(), Ratio(3.0)))
  {
    Layout(Tied().values);
    Layout(Untied().values);
    TiedUpper();
    UntiedView();
    TiedRatio();
    TruncatedEntries(Upper(Tied()), Untied().View(), Ratio(3.0));
  }

  /** The problem has fewer and smaller coefficients than separation asks for. */
  lemma TiedSeparated(ratio: real)
    requires Tied().Valid() && IsRatio(Upper(Tied()), ratio)
    ensures Separated(Scaled(Tied(), ratio))
  {
    TiedUpper();
    OrdinaryIntegers(Tied(), ratio, 3.0);
  }

  lemma TiedFixes(ratio: real, z: Csr<int>, all: seq<Fixing>)
    requires IsIntegerProblem(Tied(), ratio, z) && Fixes(z, 2, all) && IsRatio(Upper(Tied()), ratio)
    ensures (1, 1) in all && (2, 1) in all
  {
    TiedScaled();
    SameRatio(Upper(Tied()), ratio, Ratio(3.0));
    UntiedPosiform();
    SameIntegerProblem(Tied(), ratio, z, Untied());
    UntiedCut(Fixed(all));
    FixedLiteral(all, 1);
    FixedLiteral(all, 2);
  }

  lemma BothUsed()
    ensures Tied().Valid() && UsedTo(Tied(), 4, 0) && UsedTo(Tied(), 4, 1)
  {
    Layout(Tied().values);
  }

  lemma BothFixed(ratio: real, fixed: seq<Fixing>)
    requires FixedFrom(Tied(), 2, ratio, fixed) && Tied().Valid() && IsRatio(Upper(Tied()), ratio)
    ensures (1, 1) in fixed && (2, 1) in fixed
  {
    var z, all := ReportedFrom(Tied(), 2, ratio, fixed);
    TiedFixes(ratio, z, all);
    BothUsed();
  }

  /** What the standard method reports excludes an optimal solution, though some optimal solution has it. */
  lemma TiedBroken(ratio: real, fixed: seq<Fixing>)
    requires FixedFrom(Tied(), 2, ratio, fixed) && Tied().Valid() && IsRatio(Upper(Tied()), ratio)
    ensures (1, 1) in fixed && (2, 1) in fixed && !Promised(Tied(), 2, fixed)
  {
    BothFixed(ratio, fixed);
    TiedOptimum();
    assert !Agrees([false, false, false], fixed);
    ExcludedOptimum(Tied(), fixed, [false, false, false]);
  }

  method FixTied(maxFlow: FixQubo.FlowRoutine, strong: FixQubo.ComponentRoutine) returns (r: Result<FixVariablesResult>)
    requires FixQubo.FindsMaximumFlows(maxFlow) && FixQubo.FindsComponents(strong)
    ensures Tied().Valid() && r.Success?
    ensures HoldsInSomeOptimum(Tied(), r.value.fixedVars) && !Promised(Tied(), 2, r.value.fixedVars)
  {
    ghost var ratio;
    Layout(Tied().values);
    r, ratio := FixQuboVariables(Tied(), 2, maxFlow, strong);
    TiedSeparated(ratio);
    TiedBroken(ratio, r.value.fixedVars);
  }
}
