/** A problem on which the optimized method fixes both variables and the standard method none. */
module ProductExample {
  import opened Arithmetic
  import opened CompressedMatrices
  import opened Fixings
  import opened QuboFixing
  import opened QuboScaling
  import opened Results
  import FixQubo
  import Posiforms = PosiformConstruction
  import Qubo
  import RoofDuality

  /** 2^53 */
  const LARGE: nat := 9007199254740992

  function Shape<T>(value: T): Csr<T> {
    Csr(2, 2, [0, 1, 1], [1], [value])
  }

  /** x0 x1 */
  function Product(): Csr<real> {
    Shape(1.0)
  }

  lemma Layout<T>(value: T)
    ensures Shape(value).Valid() && Shape(value).KeyAt(0) == (0, 1) && Shape(value).View() == map[(0, 1) := value]
  {
    var c := Shape(value);
    assert c.InRow(0, 0);
    c.RowIs(0, 0);
    assert c.ViewTo(1) == map[(0, 1) := value];
  }

  lemma ProductScaled()
    ensures Product().Valid() && Shape(LARGE as int).Valid()
    ensures IsRatio(Upper(Product()), Ratio(1.0)) && IsTruncated(Shape(LARGE as int).View(), Scaled(Product(), Ratio(1.0)))
  {
    Layout(1.0);
    Layout(LARGE as int);
    assert Upper(Product()) == map[(0, 1) := 1.0];
    assert (0, 1) in Upper(Product()) && AbsReal(Upper(Product())[(0, 1)]) == 1.0;
    assert IsMaxAbs(Upper(Product()), 1.0);
    assert Ratio(1.0) == LARGE as real;
  }

  lemma ProductPosiform()
    ensures FixQubo.IsQubo(Shape(LARGE as int))
    ensures var p := Posiforms.PosiformOf(Shape(LARGE as int));
            p.numVars == 2 && p.linear == [] && p.quadratic == [Qubo.QuadraticTerm(1, 2, LARGE)]
  {
    var z := Shape(LARGE as int);
    Layout(LARGE as int);
    assert Posiforms.QuadraticTerms(z, 0) == [];
    assert Posiforms.NegativeSum(z, 0, 0) == Posiforms.NegativeSum(z, 1, 0) == 0;
    var cs := Posiforms.LinearCoefficients(z);
    assert cs == [0, 0] && cs[..1] == [0] && cs[..1][..0] == [];
    assert Posiforms.LinearTerms([0]) == [];
  }

  lemma ProductCut(s: set<int>)
    requires FixQubo.IsQubo(Shape(LARGE as int))
    ensures RoofDuality.Cut(Posiforms.PosiformOf(Shape(LARGE as int)), s) == LARGE * RoofDuality.ArcPair(1, 2, s)
  {
    ProductPosiform();
    var t := Qubo.QuadraticTerm(1, 2, LARGE);
    assert [t][..0] == [];
    assert RoofDuality.QuadraticCut([t], s) == LARGE * RoofDuality.ArcPair(1, 2, s);
  }

  /** The minimum cuts are those that no arc leaves. */
  lemma ProductMinimum(s: set<int>)
    requires FixQubo.IsQubo(Shape(LARGE as int))
    ensures RoofDuality.MinimumCut(Posiforms.PosiformOf(Shape(LARGE as int)), s)
       <==> RoofDuality.IsCut(2, s) && (1 in s ==> -2 in s) && (2 in s ==> -1 in s)
  {
    ProductPosiform();
    var p := Posiforms.PosiformOf(Shape(LARGE as int));
    ProductCut(s);
    ProductCut({0});
    assert RoofDuality.IsCut(2, {0});
    if RoofDuality.IsCut(2, s) && (1 in s ==> -2 in s) && (2 in s ==> -1 in s) {
      forall t: set<int> | RoofDuality.IsCut(2, t)
        ensures RoofDuality.Cut(p, s) <= RoofDuality.Cut(p, t)
      {
        ProductCut(t);
      }
    }
  }

  /** A maximal one without complements has a literal of each variable. */
  lemma ProductMaximal(s: set<int>, v: int)
    requires FixQubo.IsQubo(Shape(LARGE as int)) && (v == 1 || v == 2)
    requires RoofDuality.MaximalCut(Posiforms.PosiformOf(Shape(LARGE as int)), s)
    ensures v in s || -v in s
  {
    if v !in s && -v !in s {
      ProductMinimum(s);
      ProductMinimum(s + {-v});
    }
  }

  lemma ProductProblem(ratio: real, z: Csr<int>)
    requires IsIntegerProblem(Product(), ratio, z) && IsRatio(Upper(Product()), ratio)
    ensures z == Shape(LARGE as int)
  {
    ProductScaled();
    SameRatio(Upper(Product()), ratio, Ratio(1.0));
    ProductPosiform();
    SameIntegerProblem(Product(), ratio, z, Shape(LARGE as int));
  }

  lemma BothUsed()
    ensures Product().Valid() && UsedTo(Product(), 1, 0) && UsedTo(Product(), 1, 1)
  {
    Layout(1.0);
    assert Product().KeyAt(0) == (0, 1);
  }

  lemma MaximalFixes(all: seq<Fixing>, v: nat)
    requires FixQubo.IsQubo(Shape(LARGE as int)) && Fixes(Shape(LARGE as int), 1, all) && (v == 1 || v == 2)
    ensures (v, 0) in all || (v, 1) in all
  {
    ProductMaximal(Fixed(all), v);
    var lit: int := if v in Fixed(all) then v else 0 - v;
    FixedLiteral(all, lit);
  }

  lemma LeastFixes(all: seq<Fixing>)
    requires FixQubo.IsQubo(Shape(LARGE as int)) && Fixes(Shape(LARGE as int), 2, all)
    ensures all == []
  {
    ProductMinimum({0});
    FixedLiterals(all);
  }

  lemma FixedLiterals(all: seq<Fixing>)
    requires forall f | f in all :: f.0 >= 1 && (f.1 == 0 || f.1 == 1)
    ensures all != [] ==> exists c :: c in Fixed(all) && c != 0
  {
    if all != [] {
      var f := all[0];
      assert f in all && Code(f) in Fixed(all) && Code(f) != 0;
    }
  }

  /** Whatever the optimized method reports gives both variables a value. */
  lemma OptimizedFixesBoth(ratio: real, fixed: seq<Fixing>, v: nat)
    requires FixedFrom(Product(), 1, ratio, fixed) && Product().Valid() && IsRatio(Upper(Product()), ratio)
    requires v == 1 || v == 2
    ensures (v, 0) in fixed || (v, 1) in fixed
  {
    var z, all := ReportedFrom(Product(), 1, ratio, fixed);
    ProductProblem(ratio, z);
    MaximalFixes(all, v);
    BothReported(all, fixed, v);
  }

  lemma BothReported(all: seq<Fixing>, fixed: seq<Fixing>, v: nat)
    requires Product().Valid() && forall f | f in all && f.0 > 0 && UsedTo(Product(), 1, f.0 - 1) :: f in fixed
    requires ((v, 0) in all || (v, 1) in all) && (v == 1 || v == 2)
    ensures (v, 0) in fixed || (v, 1) in fixed
  {
    BothUsed();
  }

  /** The standard method reports nothing. */
  lemma StandardFixesNone(ratio: real, fixed: seq<Fixing>)
    requires FixedFrom(Product(), 2, ratio, fixed) && Product().Valid() && IsRatio(Upper(Product()), ratio)
    ensures fixed == []
  {
    var z: Csr<int>, all: seq<Fixing> :| FixesOf(Product(), 2, ratio, z, all, fixed);
    ProductProblem(ratio, z);
    LeastFixes(all);
    NothingIn(fixed, all);
  }

  lemma NothingIn(fixed: seq<Fixing>, all: seq<Fixing>)
    requires forall f | f in fixed :: f in all
    ensures fixed != [] ==> all != []
  {
    if fixed != [] {
      var f := fixed[0];
      assert f in all;
    }
  }

  method FixProduct(maxFlow: FixQubo.FlowRoutine, strong: FixQubo.ComponentRoutine)
    returns (optimized: Result<FixVariablesResult>, standard: Result<FixVariablesResult>)
    requires FixQubo.FindsMaximumFlows(maxFlow) && FixQubo.FindsComponents(strong)
    ensures optimized.Success? && standard.Success? && standard.value.fixedVars == []
    ensures forall v: nat | v == 1 || v == 2 :: (v, 0) in optimized.value.fixedVars || (v, 1) in optimized.value.fixedVars
  {
    ghost var ratio1, ratio2;
    Layout(1.0);
    optimized, ratio1 := FixQuboVariables(Product(), 1, maxFlow, strong);
    standard, ratio2 := FixQuboVariables(Product(), 2, maxFlow, strong);
    OptimizedFixesBoth(ratio1, optimized.value.fixedVars, 1);
    OptimizedFixesBoth(ratio1, optimized.value.fixedVars, 2);
    StandardFixesNone(ratio2, standard.value.fixedVars);
  }
}
