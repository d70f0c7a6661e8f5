/** `fixQuboVariables`: from a problem with real coefficients to its fixed variables and the problem that is left. */
module QuboFixing {
  import opened CompressedMatrices
  import opened Fixings
  import opened Queues
  import opened QuboScaling
  import opened Results
  import opened SparseMatrices
  import opened TruncationLoss
  import FixQubo
  import Posiforms = PosiformConstruction
  import Qubo
  import RoofDuality
  import S = Substitution

  // ---------------------------------------------------------------- the whole procedure

  datatype FixVariablesResult = FixVariablesResult(fixedVars: seq<Fixing>, newQ: Csr<real>, offset: real)

  /** `z` is the integer problem that `q` is turned into. */
  ghost predicate IsIntegerProblem(q: Csr<real>, ratio: real, z: Csr<int>) {
    && q.Valid() && q.numRows == q.numCols
    && FixQubo.IsQubo(z) && z.numRows == q.numRows && IsTruncated(z.View(), Scaled(q, ratio))
  }

  /** `uTriQ` is the upper-triangular form of `q`, `z` its scaled and truncated copy, `used` the variables that occur. */
  ghost predicate IsPrepared(q: Csr<real>, uTriQ: Csr<real>, z: Csr<int>, used: set<nat>, ratio: real) {
    && IsIntegerProblem(q, ratio, z)
    && uTriQ.Valid() && uTriQ.numRows == uTriQ.numCols == q.numRows && uTriQ.View() == Upper(q)
    && IsRatio(Upper(q), ratio)
    && forall v: nat :: v in used <==> UsedTo(q, |q.values|, v)
  }

  method Prepare(q: Csr<real>) returns (uTriQ: Csr<real>, z: Csr<int>, used: set<nat>, ghost ratio: real)
    requires q.Valid() && q.numRows == q.numCols
    ensures IsPrepared(q, uTriQ, z, used, ratio)
  {
    var m;
    m, used := UpperTriangle(q);
    UpperInRange(q, |q.values|);
    var u := FromMap(q.numRows, q.numRows, m);
    uTriQ := u.value;
    var maxAbs := MaxAbs(uTriQ);
    var mLLI := ScaleEntries(m, Ratio(maxAbs));
    ratio := Ratio(maxAbs);
    var r := FromMap(q.numRows, q.numRows, mLLI);
    z := r.value;
    UpperKeys(z);
  }

  lemma UpperKeys(z: Csr<int>)
    requires z.Valid() && z.numRows == z.numCols && forall key: Key | key in z.View() :: key.0 <= key.1
    ensures FixQubo.IsQubo(z)
  {
    forall k: nat | k < |z.values|
      ensures z.KeyAt(k).0 <= z.KeyAt(k).1
    {
      z.ViewAt(k);
    }
  }

  /** What roof duality promises about the fixed variables of the integer problem. */
  ghost predicate Fixes(z: Csr<int>, mthd: int, fixed: seq<Fixing>)
    requires FixQubo.IsQubo(z)
  {
    && Posiforms.PosiformOf(z).Positive() && RoofDuality.MinimumCut(Posiforms.PosiformOf(z), Fixed(fixed))
    && (mthd == 1 ==> RoofDuality.MaximalCut(Posiforms.PosiformOf(z), Fixed(fixed)))
    && (mthd == 2 ==> RoofDuality.LeastMinimumCut(Posiforms.PosiformOf(z), Fixed(fixed)))
    && RoofDuality.ComplementFree(Fixed(fixed)) && Distinct(fixed)
    && forall f | f in fixed :: 1 <= f.0 <= z.numRows && (f.1 == 0 || f.1 == 1)
  }

  method FixInteger(z: Csr<int>, mthd: int, maxFlow: FixQubo.FlowRoutine, strong: FixQubo.ComponentRoutine) returns (fixed: seq<Fixing>)
    requires FixQubo.IsQubo(z) && (mthd == 1 || mthd == 2)
    requires FixQubo.FindsMaximumFlows(maxFlow) && FixQubo.FindsComponents(strong)
    ensures Fixes(z, mthd, fixed)
  {
    if mthd == 1 {
      fixed := FixQubo.Optimized(z, maxFlow, strong);
    } else {
      fixed := FixQubo.Standard(z, maxFlow);
      RoofDuality.LeastIsComplementFree(Posiforms.PosiformOf(z), Fixed(fixed));
    }
  }

  /** No variable is fixed twice, so there are at most as many fixed variables as variables. */
  lemma DistinctVariables(fixed: seq<Fixing>, n: nat)
    requires Distinct(fixed) && RoofDuality.ComplementFree(Fixed(fixed))
    requires forall f | f in fixed :: 1 <= f.0 <= n && (f.1 == 0 || f.1 == 1)
    ensures S.IsFixing(fixed, n) && |fixed| <= n
  {
    forall i, j | 0 <= i < j < |fixed|
      ensures fixed[i].0 != fixed[j].0
    {
      assert Code(fixed[i]) in Fixed(fixed) && Code(fixed[j]) in Fixed(fixed);
    }
    var vars := seq(|fixed|, i requires 0 <= i < |fixed| => fixed[i].0 - 1);
    DistinctBelow(vars, n);
  }

  /** Variables without any stored entry are not reported. */
  method KeepUsed(used: set<nat>, fixed: seq<Fixing>, ghost n: nat) returns (kept: seq<Fixing>)
    requires S.IsFixing(fixed, n)
    ensures S.IsFixing(kept, n)
    ensures forall f :: f in kept <==> f in fixed && f.0 > 0 && f.0 - 1 in used
  {
    kept := [];
    for i := 0 to |fixed|
      invariant S.IsFixing(kept, n)
      invariant forall f :: f in kept <==> f in fixed[..i] && f.0 > 0 && f.0 - 1 in used
    {
      assert fixed[..i + 1] == fixed[..i] + [fixed[i]];
      if fixed[i].0 - 1 in used {
        KeepOne(fixed, i, kept, n);
        kept := kept + [fixed[i]];
      }
    }
    assert fixed[..|fixed|] == fixed;
  }

  lemma KeepOne(fixed: seq<Fixing>, i: nat, kept: seq<Fixing>, n: nat)
    requires S.IsFixing(fixed, n) && i < |fixed| && S.IsFixing(kept, n) && forall f | f in kept :: f in fixed[..i]
    ensures S.IsFixing(kept + [fixed[i]], n)
  {
    forall a | 0 <= a < |kept|
      ensures kept[a].0 != fixed[i].0
    {
      assert kept[a] in fixed[..i];
    }
  }

  /** Assignments with the fixed values keep their value. */
  ghost predicate Preserves(q: Csr<real>, v: FixVariablesResult)
    requires q.Valid() && q.numRows == q.numCols
  {
    && v.newQ.Valid() && v.newQ.numRows == v.newQ.numCols == q.numRows
    && forall x: seq<bool> | |x| == q.numRows && Agrees(x, v.fixedVars) :: S.Energy(q, x) == v.offset + S.Energy(v.newQ, x)
  }

  /** The problem that is left: the upper-triangular form itself when nothing is fixed; else an upper-triangular problem
  without zeros that does not mention the fixed variables and couples no new pair. */
  ghost predicate Leaves(q: Csr<real>, v: FixVariablesResult)
    requires q.Valid()
  {
    && v.newQ.Valid() && S.IsFixing(v.fixedVars, q.numRows)
    && if v.fixedVars == [] then v.newQ.View() == Upper(q) && v.offset == 0.0
       else forall key: Key | key in v.newQ.View() ::
              v.newQ.View()[key] != 0.0 && S.Untouched(v.fixedVars, key) && key.0 <= key.1 < q.numRows && (key in Upper(q) || key.0 == key.1)
  }

  method Finish(uTriQ: Csr<real>, used: set<nat>, fixed: seq<Fixing>) returns (r: Result<FixVariablesResult>)
    requires uTriQ.Valid() && uTriQ.numRows == uTriQ.numCols && S.IsFixing(fixed, uTriQ.numRows)
    ensures r.Failure? <==> |fixed| > uTriQ.numRows
    ensures r.Success? ==> Preserves(uTriQ, r.value) && S.IsFixing(r.value.fixedVars, uTriQ.numRows)
    ensures r.Success? ==> S.IsReduced(uTriQ, r.value.fixedVars, r.value.newQ, r.value.offset)
    ensures r.Success? ==> forall f :: f in r.value.fixedVars <==> f in fixed && f.0 > 0 && f.0 - 1 in used
  {
    if |fixed| > uTriQ.numRows {
      return Failure("ret.fixedVars has wrong size.");
    }
    var kept := KeepUsed(used, fixed, uTriQ.numRows);
    var newQ, offset := S.ComputeNewQAndOffset(uTriQ, kept);
    r := Success(FixVariablesResult(kept, newQ, offset));
  }

  lemma UpperSame(q: Csr<real>, u: Csr<real>, x: seq<bool>)
    requires q.Valid() && u.Valid() && u.View() == Upper(q) && |x| == q.numRows == q.numCols == u.numRows == u.numCols
    ensures S.Energy(u, x) == S.Energy(q, x)
  {
    S.EnergyIsForm(u, x, |u.values|);
    UpperEnergy(q, x, |q.values|);
  }

  lemma PreservesOriginal(q: Csr<real>, u: Csr<real>, v: FixVariablesResult)
    requires q.Valid() && u.Valid() && u.View() == Upper(q) && q.numRows == q.numCols == u.numRows == u.numCols && Preserves(u, v)
    ensures Preserves(q, v)
  {
    forall x: seq<bool> | |x| == q.numRows && Agrees(x, v.fixedVars)
      ensures S.Energy(q, x) == v.offset + S.Energy(v.newQ, x)
    {
      UpperSame(q, u, x);
    }
  }

  lemma LeavesOriginal(q: Csr<real>, u: Csr<real>, v: FixVariablesResult)
    requires q.Valid() && u.Valid() && u.View() == Upper(q) && q.numRows == q.numCols && v.newQ.Valid() && v.newQ.numCols == q.numRows
    requires S.IsFixing(v.fixedVars, q.numRows) && S.IsReduced(u, v.fixedVars, v.newQ, v.offset)
    ensures Leaves(q, v)
  {
    UpperInRange(q, |q.values|);
    forall key: Key | key in v.newQ.View()
      ensures key.1 < q.numRows
    {
      v.newQ.ViewToOnly(|v.newQ.values|, key);
    }
  }

  method FixPrepared(q: Csr<real>, uTriQ: Csr<real>, z: Csr<int>, used: set<nat>, mthd: int,
                     maxFlow: FixQubo.FlowRoutine, strong: FixQubo.ComponentRoutine, ghost ratio: real)
    returns (r: Result<FixVariablesResult>, ghost all: seq<Fixing>)
    requires IsPrepared(q, uTriQ, z, used, ratio) && (mthd == 1 || mthd == 2)
    requires FixQubo.FindsMaximumFlows(maxFlow) && FixQubo.FindsComponents(strong)
    ensures r.Success? && Preserves(q, r.value) && Leaves(q, r.value) && Fixes(z, mthd, all)
    ensures forall f :: f in r.value.fixedVars <==> f in all && f.0 > 0 && f.0 - 1 in used
  {
    var fixed := FixInteger(z, mthd, maxFlow, strong);
    all := fixed;
    DistinctVariables(fixed, z.numRows);
    r := Finish(uTriQ, used, fixed);
    PreservesOriginal(q, uTriQ, r.value);
    LeavesOriginal(q, uTriQ, r.value);
  }

  // ---------------------------------------------------------------- what the documentation promises

  ghost predicate Optimal(q: Csr<real>, x: seq<bool>)
    requires q.Valid() && q.numRows == q.numCols
  {
    |x| == q.numRows && forall y: seq<bool> | |y| == q.numRows :: S.Energy(q, x) <= S.Energy(q, y)
  }

  ghost predicate HoldsInSomeOptimum(q: Csr<real>, fixed: seq<Fixing>)
    requires q.Valid() && q.numRows == q.numCols
  {
    exists x: seq<bool> :: Optimal(q, x) && Agrees(x, fixed)
  }

  /** Standard fixes hold in every optimal solution, optimized fixes in some optimal solution. */
  ghost predicate Promised(q: Csr<real>, mthd: int, fixed: seq<Fixing>)
    requires q.Valid() && q.numRows == q.numCols
  {
    && (mthd == 2 ==> forall x: seq<bool> | Optimal(q, x) :: Agrees(x, fixed))
    && HoldsInSomeOptimum(q, fixed)
  }

  /** Some solution with the fixed values misses the optimum of the scaled problem by at most the dropped fractions. */
  ghost predicate NearlyPromised(q: Csr<real>, ratio: real, fixed: seq<Fixing>)
    requires q.Valid() && q.numRows == q.numCols
  {
    exists x: seq<bool> :: |x| == q.numRows && Agrees(x, fixed) && NearlyOptimal(q, ratio, x)
  }

  ghost predicate NearlyOptimal(q: Csr<real>, ratio: real, x: seq<bool>)
    requires q.Valid()
  {
    var m := Scaled(q, ratio);
    forall y: seq<bool> | |y| == |x| :: S.Form(m, x, x) <= S.Form(m, y, y) + Loss(m)
  }

  lemma NearOptimum(q: Csr<real>, z: Csr<int>, ratio: real, x: seq<bool>)
    requires IsIntegerProblem(q, ratio, z) && Qubo.Optimal(z, x)
    ensures NearlyOptimal(q, ratio, x)
  {
    var m := Scaled(q, ratio);
    forall y: seq<bool> | |y| == |x|
      ensures S.Form(m, x, x) <= S.Form(m, y, y) + Loss(m)
    {
      TruncatedEnergy(m, z, x);
      TruncatedEnergy(m, z, y);
      LossBound(m, x, y);
    }
  }

  lemma ExcludedOptimum(q: Csr<real>, fixed: seq<Fixing>, x: seq<bool>)
    requires q.Valid() && q.numRows == q.numCols && Optimal(q, x) && !Agrees(x, fixed)
    ensures !Promised(q, 2, fixed)
  {
  }

  /** What truncation takes from the scaled value at `x`. */
  ghost function LostAt(q: Csr<real>, ratio: real, x: seq<bool>): real
    requires q.Valid()
  {
    S.Form(Dropped(Scaled(q, ratio)), x, x)
  }

  /** All optimal solutions lose the same. */
  ghost predicate SameLoss(q: Csr<real>, ratio: real)
    requires q.Valid() && q.numRows == q.numCols
  {
    forall x: seq<bool>, y: seq<bool> | Optimal(q, x) && Optimal(q, y) :: LostAt(q, ratio, x) == LostAt(q, ratio, y)
  }

  /** In a separated problem what is optimal after truncation was optimal before, and has lost at least as much as any
  other optimal solution. */
  lemma SeparatedIsOptimal(q: Csr<real>, z: Csr<int>, ratio: real, x: seq<bool>)
    requires IsIntegerProblem(q, ratio, z) && Separated(Scaled(q, ratio)) && ratio > 0.0 && Qubo.Optimal(z, x)
    ensures Optimal(q, x)
    ensures forall y: seq<bool> | Optimal(q, y) :: LostAt(q, ratio, x) >= LostAt(q, ratio, y)
  {
    var m := Scaled(q, ratio);
    forall y: seq<bool> | |y| == q.numRows
      ensures S.Energy(q, x) <= S.Energy(q, y)
    {
      SeparatedOrder(m, z, x, y);
      ScaledOrder(q, ratio, x, y);
    }
    forall y: seq<bool> | Optimal(q, y)
      ensures LostAt(q, ratio, x) >= LostAt(q, ratio, y)
    {
      ScaledOrder(q, ratio, y, x);
      TruncatedEnergy(m, z, x);
      TruncatedEnergy(m, z, y);
    }
  }

  lemma SomeIntegerOptimum(z: Csr<int>) returns (best: seq<bool>)
    requires FixQubo.IsQubo(z)
    ensures Qubo.Optimal(z, best)
  {
    FixQubo.PosiformReady(z);
    best := RoofDuality.OptimalExists(Posiforms.PosiformOf(z), seq(z.numRows, _ => false));
    FixQubo.OptimalTransfers(z, best);
  }

  /** In a separated problem exactly the optimal solutions that lose most stay optimal. */
  lemma SeparatedOptima(q: Csr<real>, z: Csr<int>, ratio: real, x: seq<bool>)
    requires IsIntegerProblem(q, ratio, z) && Separated(Scaled(q, ratio)) && ratio > 0.0
    ensures Qubo.Optimal(z, x) <==>
            Optimal(q, x) && forall y: seq<bool> | Optimal(q, y) :: LostAt(q, ratio, x) >= LostAt(q, ratio, y)
  {
    if Qubo.Optimal(z, x) {
      SeparatedIsOptimal(q, z, ratio, x);
    }
    if Optimal(q, x) && forall y: seq<bool> | Optimal(q, y) :: LostAt(q, ratio, x) >= LostAt(q, ratio, y) {
      var best := SomeIntegerOptimum(z);
      SeparatedIsOptimal(q, z, ratio, best);
      ScaledOrder(q, ratio, x, best);
      TruncatedEnergy(Scaled(q, ratio), z, x);
      TruncatedEnergy(Scaled(q, ratio), z, best);
      assert Qubo.Energy(z, x) <= Qubo.Energy(z, best);
    }
  }

  /** A separated problem keeps its optimal solutions if and only if they all lose the same. */
  lemma SameOptimaIffSameLoss(q: Csr<real>, z: Csr<int>, ratio: real)
    requires IsIntegerProblem(q, ratio, z) && Separated(Scaled(q, ratio)) && ratio > 0.0
    ensures SameLoss(q, ratio) <==> forall x: seq<bool> :: Optimal(q, x) <==> Qubo.Optimal(z, x)
  {
    forall x: seq<bool>
      ensures Qubo.Optimal(z, x) <==>
              Optimal(q, x) && forall y: seq<bool> | Optimal(q, y) :: LostAt(q, ratio, x) >= LostAt(q, ratio, y)
    {
      SeparatedOptima(q, z, ratio, x);
    }
  }

  /** An exactly scaled problem is separated, and nothing is lost. */
  lemma ExactSameLoss(q: Csr<real>, ratio: real)
    requires q.Valid() && q.numRows == q.numCols && Exact(Scaled(q, ratio))
    ensures Separated(Scaled(q, ratio)) && SameLoss(q, ratio)
  {
    ExactSeparated(Scaled(q, ratio));
  }

  /** So it has the same optimal solutions as the original. */
  lemma ExactOptima(q: Csr<real>, z: Csr<int>, ratio: real, x: seq<bool>)
    requires IsIntegerProblem(q, ratio, z) && Exact(Scaled(q, ratio)) && ratio > 0.0
    ensures Optimal(q, x) <==> Qubo.Optimal(z, x)
  {
    ExactSameLoss(q, ratio);
    SameOptimaIffSameLoss(q, z, ratio);
  }

  /** A single optimal solution has nothing to compare its loss with. */
  lemma UniqueSameLoss(q: Csr<real>, ratio: real)
    requires q.Valid() && q.numRows == q.numCols
    requires forall x: seq<bool>, y: seq<bool> | Optimal(q, x) && Optimal(q, y) :: x == y
    ensures SameLoss(q, ratio)
  {
  }

  /** With integer coefficients, and their number times the largest at most 2^53, the problem is separated. */
  lemma OrdinaryIntegers(q: Csr<real>, ratio: real, a: real)
    requires q.Valid() && Integral(Upper(q)) && IsMaxAbs(Upper(q), a) && IsRatio(Upper(q), ratio)
    requires |Upper(q).Keys| as real * a <= 9007199254740992.0
    ensures Separated(Scaled(q, ratio))
  {
    RatioUnique(Upper(q), ratio, a);
    IntegerSeparated(Upper(q), a);
  }

  lemma PromiseKept(q: Csr<real>, z: Csr<int>, ratio: real, mthd: int, all: seq<Fixing>, fixed: seq<Fixing>)
    requires IsIntegerProblem(q, ratio, z) && ratio > 0.0
    requires Fixes(z, mthd, all) && forall f | f in fixed :: f in all
    ensures NearlyPromised(q, ratio, fixed)
    ensures Separated(Scaled(q, ratio)) ==> HoldsInSomeOptimum(q, fixed)
    ensures Separated(Scaled(q, ratio)) && SameLoss(q, ratio) ==> Promised(q, mthd, fixed)
  {
    var best := FixQubo.OptimizedHoldsInSomeOptimum(z, all);
    NearOptimum(q, z, ratio, best);
    assert Agrees(best, fixed);
    if Separated(Scaled(q, ratio)) {
      SeparatedIsOptimal(q, z, ratio, best);
      if SameLoss(q, ratio) && mthd == 2 {
        SameOptimaIffSameLoss(q, z, ratio);
        forall x: seq<bool> | Optimal(q, x)
          ensures Agrees(x, fixed)
        {
          FixQubo.StandardHoldsInEveryOptimum(z, all, x);
        }
      }
    }
  }

  /** `fixed` are those of the fixed variables of the integer problem `z` that occur in `q`. */
  ghost predicate FixesOf(q: Csr<real>, mthd: int, ratio: real, z: Csr<int>, all: seq<Fixing>, fixed: seq<Fixing>) {
    && IsIntegerProblem(q, ratio, z) && Fixes(z, mthd, all)
    && forall f :: f in fixed <==> f in all && f.0 > 0 && UsedTo(q, |q.values|, f.0 - 1)
  }

  ghost predicate FixedFrom(q: Csr<real>, mthd: int, ratio: real, fixed: seq<Fixing>) {
    exists z: Csr<int>, all: seq<Fixing> :: FixesOf(q, mthd, ratio, z, all, fixed)
  }

  /** What is reported for a problem with ordinary integer coefficients holds in some optimal solution, and everything that
  is documented holds if there is a single one. */
  lemma OrdinaryPromise(q: Csr<real>, mthd: int, ratio: real, a: real, fixed: seq<Fixing>)
    requires q.Valid() && Integral(Upper(q)) && IsMaxAbs(Upper(q), a) && |Upper(q).Keys| as real * a <= 9007199254740992.0
    requires IsRatio(Upper(q), ratio) && FixedFrom(q, mthd, ratio, fixed)
    ensures HoldsInSomeOptimum(q, fixed)
    ensures (forall x: seq<bool>, y: seq<bool> | Optimal(q, x) && Optimal(q, y) :: x == y) ==> Promised(q, mthd, fixed)
  {
    var z: Csr<int>, all: seq<Fixing> :| FixesOf(q, mthd, ratio, z, all, fixed);
    OrdinaryIntegers(q, ratio, a);
    PromiseKept(q, z, ratio, mthd, all, fixed);
    if forall x: seq<bool>, y: seq<bool> | Optimal(q, x) && Optimal(q, y) :: x == y {
      UniqueSameLoss(q, ratio);
    }
  }

  lemma ReportedFrom(q: Csr<real>, mthd: int, ratio: real, fixed: seq<Fixing>) returns (z: Csr<int>, all: seq<Fixing>)
    requires FixedFrom(q, mthd, ratio, fixed)
    ensures IsIntegerProblem(q, ratio, z) && Fixes(z, mthd, all)
    ensures forall f | f in all && f.0 > 0 && UsedTo(q, |q.values|, f.0 - 1) :: f in fixed
  {
    z, all :| FixesOf(q, mthd, ratio, z, all, fixed);
  }

  /** `fixQuboVariables`. The check of the number of fixed variables never fails. */
  method FixQuboVariables(q: Csr<real>, mthd: int, maxFlow: FixQubo.FlowRoutine, strong: FixQubo.ComponentRoutine)
    returns (r: Result<FixVariablesResult>, ghost ratio: real)
    requires q.Valid() && FixQubo.FindsMaximumFlows(maxFlow) && FixQubo.FindsComponents(strong)
    ensures r.Failure? <==> q.numRows != q.numCols || !(mthd == 1 || mthd == 2)
    ensures r.Success? ==> IsRatio(Upper(q), ratio) && Preserves(q, r.value) && Leaves(q, r.value)
    ensures r.Success? ==> forall f | f in r.value.fixedVars :: f.0 > 0 && UsedTo(q, |q.values|, f.0 - 1)
    ensures r.Success? && q.numRows > 0 ==> FixedFrom(q, mthd, ratio, r.value.fixedVars)
    // on every input the fixed values cost at most the dropped fractions
    ensures r.Success? ==> NearlyPromised(q, ratio, r.value.fixedVars)
    // if those are smaller than the quantum of the coefficients, some optimal solution has the fixed values
    ensures r.Success? && Separated(Scaled(q, ratio)) ==> HoldsInSomeOptimum(q, r.value.fixedVars)
    // and if moreover all optimal solutions lose the same, everything that is documented holds
    ensures r.Success? && Separated(Scaled(q, ratio)) && SameLoss(q, ratio) ==> Promised(q, mthd, r.value.fixedVars)
  {
    if q.numRows != q.numCols {
      return Failure("Q's size is not correct."), 1.0;
    }
    if !(mthd == 1 || mthd == 2) {
      return Failure("method must be an integer of 1 or 2."), 1.0;
    }
    if q.numRows == 0 {
      ratio := Ratio(0.0);
      r := Success(FixVariablesResult([], Csr(0, 0, [0], [], []), 0.0));
      NothingToFix(q, mthd, ratio);
      return;
    }
    var uTriQ, z, used;
    uTriQ, z, used, ratio := Prepare(q);
    ghost var all;
    r, all := FixPrepared(q, uTriQ, z, used, mthd, maxFlow, strong, ratio);
    PromiseKept(q, z, ratio, mthd, all, r.value.fixedVars);
    assert FixesOf(q, mthd, ratio, z, all, r.value.fixedVars);
  }

  lemma NothingToFix(q: Csr<real>, mthd: int, ratio: real)
    requires q.Valid() && q.numRows == q.numCols == 0 && ratio == Ratio(0.0)
    ensures IsRatio(Upper(q), ratio) && NearlyPromised(q, ratio, []) && Promised(q, mthd, [])
    ensures Preserves(q, FixVariablesResult([], Csr(0, 0, [0], [], []), 0.0)) && Leaves(q, FixVariablesResult([], Csr(0, 0, [0], [], []), 0.0))
  {
    assert IsMaxAbs(Upper(q), 0.0);
    var x: seq<bool> := [];
    assert forall y: seq<bool> | |y| == 0 :: y == x;
    LossRange(Scaled(q, ratio));
    assert Agrees(x, []) && Optimal(q, x) && NearlyOptimal(q, ratio, x);
  }

  /** On one problem what the standard method fixes the optimized method fixes to the same value. */
  lemma StandardAmongOptimized(q: Csr<real>, ratio1: real, ratio2: real, standard: seq<Fixing>, optimized: seq<Fixing>)
    requires q.Valid() && IsRatio(Upper(q), ratio1) && IsRatio(Upper(q), ratio2)
    requires FixedFrom(q, 2, ratio2, standard) && FixedFrom(q, 1, ratio1, optimized)
    ensures forall f | f in standard :: f in optimized
  {
    var z2: Csr<int>, all2: seq<Fixing> :| FixesOf(q, 2, ratio2, z2, all2, standard);
    var z1: Csr<int>, all1: seq<Fixing> :| FixesOf(q, 1, ratio1, z1, all1, optimized);
    SameRatio(Upper(q), ratio1, ratio2);
    SameIntegerProblem(q, ratio1, z1, z2);
    forall f | f in standard
      ensures f in optimized
    {
      FixQubo.StandardWithinOptimized(z1, all2, all1, f);
    }
  }

  /** There is only one integer problem. */
  lemma SameIntegerProblem(q: Csr<real>, ratio: real, z1: Csr<int>, z2: Csr<int>)
    requires IsIntegerProblem(q, ratio, z1) && IsIntegerProblem(q, ratio, z2)
    ensures z1 == z2
  {
    assert z1.View() == z2.View();
    SameRepresentation(z1, z2);
  }

  /** Both methods, each in a run of its own and with a flow of its own. */
  method FixBoth(q: Csr<real>, flow1: FixQubo.FlowRoutine, flow2: FixQubo.FlowRoutine, strong: FixQubo.ComponentRoutine)
    returns (standard: FixVariablesResult, optimized: FixVariablesResult)
    requires q.Valid() && q.numRows == q.numCols
    requires FixQubo.FindsMaximumFlows(flow1) && FixQubo.FindsMaximumFlows(flow2) && FixQubo.FindsComponents(strong)
    ensures forall f | f in standard.fixedVars :: f in optimized.fixedVars
    ensures Preserves(q, standard) && Preserves(q, optimized) && Leaves(q, standard) && Leaves(q, optimized)
  {
    ghost var ratio1, ratio2;
    var r1, r2;
    r2, ratio2 := FixQuboVariables(q, 2, flow2, strong);
    r1, ratio1 := FixQuboVariables(q, 1, flow1, strong);
    standard, optimized := r2.value, r1.value;
    if q.numRows > 0 {
      StandardAmongOptimized(q, ratio1, ratio2, standard.fixedVars, optimized.fixedVars);
    }
  }
}
