/** Roof duality as a theory of cuts.

A cut is a set of literal codes: code 0 is the constant true (the source of the implication network),
`i` and `-i` are the two literals of variable `i`, and the constant false (the sink) is never a member.
Every posiform term contributes two mirrored arcs; `Cut` adds up the arcs that leave the set. */
module RoofDuality {
  import opened Qubo

  ghost predicate IsCut(n: nat, s: set<int>) {
    0 in s && forall c | c in s :: Abs(c) <= n
  }

  ghost predicate ComplementFree(s: set<int>) {
    forall c | c in s && -c in s :: c == 0
  }

  /** The two arcs of the term `coeff * lit1 * lit2`; a linear term has the constant true as second literal. */
  ghost function ArcPair(lit1: int, lit2: int, s: set<int>): int {
    (if lit1 in s && -lit2 !in s then 1 else 0) + (if lit2 in s && -lit1 !in s then 1 else 0)
  }

  ghost function LinearArcs(lit: int, s: set<int>): int {
    (if lit in s then 1 else 0) + (if -lit !in s then 1 else 0)
  }

  ghost function LinearCut(ts: seq<LinearTerm>, s: set<int>): int {
    if ts == [] then 0 else
      var t := ts[|ts| - 1];
      LinearCut(ts[..|ts| - 1], s) + t.coeff * LinearArcs(t.lit, s)
  }

  ghost function QuadraticCut(ts: seq<QuadraticTerm>, s: set<int>): int {
    if ts == [] then 0 else
      var t := ts[|ts| - 1];
      QuadraticCut(ts[..|ts| - 1], s) + t.coeff * ArcPair(t.lit1, t.lit2, s)
  }

  ghost function Cut(p: Posiform, s: set<int>): int {
    LinearCut(p.linear, s) + QuadraticCut(p.quadratic, s)
  }

  ghost predicate MinimumCut(p: Posiform, s: set<int>) {
    IsCut(p.numVars, s) && forall t: set<int> | IsCut(p.numVars, t) :: Cut(p, s) <= Cut(p, t)
  }

  ghost predicate LeastMinimumCut(p: Posiform, s: set<int>) {
    MinimumCut(p, s) && forall t: set<int> | MinimumCut(p, t) :: s <= t
  }

  /** No larger minimum cut contains at most one sign of each variable. */
  ghost predicate MaximalCut(p: Posiform, s: set<int>) {
    && MinimumCut(p, s) && ComplementFree(s)
    && forall t: set<int> | MinimumCut(p, t) && ComplementFree(t) && s <= t :: t == s
  }

  /** The mirror image swaps the roles of source and sink and of each literal and its negation. */
  ghost function Mirror(n: nat, s: set<int>): (m: set<int>)
    ensures IsCut(n, m)
    ensures forall c | IsLiteral(n, c) :: c in m <==> -c !in s
  {
    {0} + set c | 0 - n <= c <= n && IsLiteral(n, c) && -c !in s
  }

  lemma {:induction false} LinearSubmodular(ts: seq<LinearTerm>, s: set<int>, t: set<int>)
    requires forall u | u in ts :: u.coeff > 0
    ensures LinearCut(ts, s + t) + LinearCut(ts, s * t) <= LinearCut(ts, s) + LinearCut(ts, t)
  {
    if ts != [] {
      var u, rest := ts[|ts| - 1], ts[..|ts| - 1];
      assert u in ts;
      LinearSubmodular(rest, s, t);
      Weigh(u.coeff, LinearArcs(u.lit, s + t), LinearArcs(u.lit, s * t), LinearArcs(u.lit, s), LinearArcs(u.lit, t));
    }
  }

  lemma Weigh(k: int, a: int, b: int, c: int, d: int)
    requires k > 0 && a + b <= c + d
    ensures k * a + k * b <= k * c + k * d
  {
    assert k * (c + d - a - b) >= 0;
  }

  lemma {:induction false} QuadraticSubmodular(ts: seq<QuadraticTerm>, s: set<int>, t: set<int>)
    requires forall u | u in ts :: u.coeff > 0
    ensures QuadraticCut(ts, s + t) + QuadraticCut(ts, s * t) <= QuadraticCut(ts, s) + QuadraticCut(ts, t)
  {
    if ts != [] {
      var u, rest := ts[|ts| - 1], ts[..|ts| - 1];
      assert u in ts;
      QuadraticSubmodular(rest, s, t);
      var a, b := u.lit1, u.lit2;
      Weigh(u.coeff, ArcPair(a, b, s + t), ArcPair(a, b, s * t), ArcPair(a, b, s), ArcPair(a, b, t));
    }
  }

  /** The capacity of a cut is a submodular function of the cut. */
  lemma Submodular(p: Posiform, s: set<int>, t: set<int>)
    requires p.Positive()
    ensures Cut(p, s + t) + Cut(p, s * t) <= Cut(p, s) + Cut(p, t)
  {
    LinearSubmodular(p.linear, s, t);
    QuadraticSubmodular(p.quadratic, s, t);
  }

  lemma {:induction false} LinearMirror(n: nat, ts: seq<LinearTerm>, s: set<int>)
    requires forall u | u in ts :: IsLiteral(n, u.lit)
    ensures LinearCut(ts, Mirror(n, s)) == LinearCut(ts, s)
  {
    if ts != [] {
      var u := ts[|ts| - 1];
      assert u in ts;
      LinearMirror(n, ts[..|ts| - 1], s);
      assert LinearArcs(u.lit, Mirror(n, s)) == LinearArcs(u.lit, s);
    }
  }

  lemma {:induction false} QuadraticMirror(n: nat, ts: seq<QuadraticTerm>, s: set<int>)
    requires forall u | u in ts :: IsLiteral(n, u.lit1) && IsLiteral(n, u.lit2)
    ensures QuadraticCut(ts, Mirror(n, s)) == QuadraticCut(ts, s)
  {
    if ts != [] {
      var u := ts[|ts| - 1];
      assert u in ts;
      QuadraticMirror(n, ts[..|ts| - 1], s);
      assert ArcPair(u.lit1, u.lit2, Mirror(n, s)) == ArcPair(u.lit1, u.lit2, s);
    }
  }

  /** The network is skew-symmetric, so a cut and its mirror image have the same capacity. */
  lemma MirrorCut(p: Posiform, s: set<int>)
    requires p.Positive()
    ensures Cut(p, Mirror(p.numVars, s)) == Cut(p, s)
  {
    LinearMirror(p.numVars, p.linear, s);
    QuadraticMirror(p.numVars, p.quadratic, s);
  }

  lemma MirrorOfMinimum(p: Posiform, s: set<int>)
    requires p.Positive() && MinimumCut(p, s)
    ensures MinimumCut(p, Mirror(p.numVars, s))
  {
    MirrorCut(p, s);
  }

  /** The literals an assignment makes true, with the constant true. */
  ghost function TrueLiterals(x: Assignment): (s: set<int>)
    ensures IsCut(|x|, s)
    ensures forall c | IsLiteral(|x|, c) :: c in s <==> Holds(c, x)
  {
    {0} + set c | -|x| <= c <= |x| && IsLiteral(|x|, c) && Holds(c, x)
  }

  lemma {:induction false} LinearCutIsTwiceValue(ts: seq<LinearTerm>, x: Assignment)
    requires forall u | u in ts :: IsLiteral(|x|, u.lit)
    ensures LinearCut(ts, TrueLiterals(x)) == 2 * LinearValue(ts, x)
  {
    if ts != [] {
      var u := ts[|ts| - 1];
      assert u in ts;
      LinearCutIsTwiceValue(ts[..|ts| - 1], x);
      assert LinearArcs(u.lit, TrueLiterals(x)) == if Holds(u.lit, x) then 2 else 0;
    }
  }

  lemma {:induction false} QuadraticCutIsTwiceValue(ts: seq<QuadraticTerm>, x: Assignment)
    requires forall u | u in ts :: IsLiteral(|x|, u.lit1) && IsLiteral(|x|, u.lit2)
    ensures QuadraticCut(ts, TrueLiterals(x)) == 2 * QuadraticValue(ts, x)
  {
    if ts != [] {
      var u := ts[|ts| - 1];
      assert u in ts;
      QuadraticCutIsTwiceValue(ts[..|ts| - 1], x);
      assert ArcPair(u.lit1, u.lit2, TrueLiterals(x)) == if Holds(u.lit1, x) && Holds(u.lit2, x) then 2 else 0;
    }
  }

  /** The capacity from true literals to false literals is twice the posiform without its constant. */
  lemma CutIsTwiceValue(p: Posiform, x: Assignment)
    requires p.Positive() && |x| == p.numVars
    ensures Cut(p, TrueLiterals(x)) == 2 * (PosiformValue(p, x) - p.cst)
  {
    LinearCutIsTwiceValue(p.linear, x);
    QuadraticCutIsTwiceValue(p.quadratic, x);
  }

  /** `x` with every literal of `s` made true. */
  ghost function Overwrite(x: Assignment, s: set<int>): (y: Assignment)
    ensures |y| == |x|
  {
    seq(|x|, i requires 0 <= i < |x| => if i + 1 in s then true else if -(i + 1) in s then false else x[i])
  }

  lemma OverwriteLiterals(x: Assignment, s: set<int>)
    requires IsCut(|x|, s) && ComplementFree(s)
    ensures TrueLiterals(Overwrite(x, s)) == (TrueLiterals(x) + s) * Mirror(|x|, s)
  {
    var y, n := Overwrite(x, s), |x|;
    forall c | IsLiteral(n, c)
      ensures c in TrueLiterals(y) <==> c in (TrueLiterals(x) + s) * Mirror(n, s)
    {
      assert Holds(c, y) <==> c in s || (-c !in s && Holds(c, x));
    }
    forall c | c in TrueLiterals(y) || c in (TrueLiterals(x) + s) * Mirror(n, s)
      ensures c == 0 || IsLiteral(n, c)
    {
    }
  }

  /** Making the literals of a complement-free minimum cut true never raises the value, and lowers it when the
  literals of the cut that `x` already makes true are not a minimum cut by themselves. */
  lemma OverwriteNeverRaises(p: Posiform, x: Assignment, s: set<int>)
    requires p.Positive() && |x| == p.numVars
    requires MinimumCut(p, s) && ComplementFree(s)
    ensures PosiformValue(p, Overwrite(x, s)) <= PosiformValue(p, x)
    ensures !MinimumCut(p, TrueLiterals(x) * s) ==> PosiformValue(p, Overwrite(x, s)) < PosiformValue(p, x)
  {
    var n, t := p.numVars, TrueLiterals(x);
    var m := Mirror(n, s);
    Submodular(p, t, s);
    assert IsCut(n, t * s) && IsCut(n, t + s) && IsCut(n, (t + s) + m);
    Submodular(p, t + s, m);
    MirrorOfMinimum(p, s);
    OverwriteLiterals(x, s);
    CutIsTwiceValue(p, x);
    CutIsTwiceValue(p, Overwrite(x, s));
  }

  ghost predicate PosiformOptimal(p: Posiform, x: Assignment)
    requires p.Positive()
  {
    |x| == p.numVars && forall y: Assignment | |y| == p.numVars :: PosiformValue(p, x) <= PosiformValue(p, y)
  }

  /** No variable is reached with both signs by the least minimum cut. */
  lemma LeastIsComplementFree(p: Posiform, s: set<int>)
    requires p.Positive() && LeastMinimumCut(p, s)
    ensures ComplementFree(s)
  {
    MirrorOfMinimum(p, s);
    assert s <= Mirror(p.numVars, s);
    forall c | c in s && -c in s
      ensures c == 0
    {
      assert c in Mirror(p.numVars, s);
    }
  }

  /** Strong persistency: a literal of the least minimum cut is true in every optimal assignment. */
  lemma StrongPersistency(p: Posiform, s: set<int>, x: Assignment)
    requires p.Positive() && LeastMinimumCut(p, s) && PosiformOptimal(p, x)
    ensures s <= TrueLiterals(x)
  {
    LeastIsComplementFree(p, s);
    OverwriteNeverRaises(p, x, s);
    assert MinimumCut(p, TrueLiterals(x) * s);
    assert s <= TrueLiterals(x) * s;
  }

  /** Weak persistency: some optimal assignment makes every literal of a complement-free minimum cut true. */
  lemma WeakPersistency(p: Posiform, s: set<int>, x: Assignment)
    requires p.Positive() && MinimumCut(p, s) && ComplementFree(s) && PosiformOptimal(p, x)
    ensures PosiformOptimal(p, Overwrite(x, s)) && s <= TrueLiterals(Overwrite(x, s))
  {
    OverwriteNeverRaises(p, x, s);
    OverwriteLiterals(x, s);
    forall c | c in s
      ensures c in TrueLiterals(Overwrite(x, s))
    {
    }
  }

  lemma {:induction false} LinearValueNonNegative(ts: seq<LinearTerm>, x: Assignment)
    requires forall u | u in ts :: IsLiteral(|x|, u.lit) && u.coeff > 0
    ensures LinearValue(ts, x) >= 0
  {
    if ts != [] {
      assert ts[|ts| - 1] in ts;
      LinearValueNonNegative(ts[..|ts| - 1], x);
    }
  }

  lemma {:induction false} QuadraticValueNonNegative(ts: seq<QuadraticTerm>, x: Assignment)
    requires forall u | u in ts :: IsLiteral(|x|, u.lit1) && IsLiteral(|x|, u.lit2) && u.coeff > 0
    ensures QuadraticValue(ts, x) >= 0
  {
    if ts != [] {
      assert ts[|ts| - 1] in ts;
      QuadraticValueNonNegative(ts[..|ts| - 1], x);
    }
  }

  /** The constant of a posiform is a lower bound of its values. */
  lemma ConstantIsLowerBound(p: Posiform, x: Assignment)
    requires p.Positive() && |x| == p.numVars
    ensures p.cst <= PosiformValue(p, x)
  {
    LinearValueNonNegative(p.linear, x);
    QuadraticValueNonNegative(p.quadratic, x);
  }

  /** Descent from any assignment ends in an optimal one. */
  lemma {:induction false} OptimalExists(p: Posiform, x: Assignment) returns (best: Assignment)
    requires p.Positive() && |x| == p.numVars
    ensures PosiformOptimal(p, best)
    decreases PosiformValue(p, x) - p.cst
  {
    ConstantIsLowerBound(p, x);
    if PosiformOptimal(p, x) {
      best := x;
    } else {
      var y: Assignment :| |y| == p.numVars && PosiformValue(p, y) < PosiformValue(p, x);
      ConstantIsLowerBound(p, y);
      best := OptimalExists(p, y);
    }
  }
}
