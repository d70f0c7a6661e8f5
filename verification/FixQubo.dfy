/** Fixing variables of an integer QUBO, end to end.

The maximum-flow and the component routine are foreign code; they enter as functions that are required to keep
the promise of such a routine on every input. */
module FixQubo {
  import opened CompressedMatrices
  import opened Qubo
  import opened Flows
  import opened Graphs
  import opened Queues
  import opened PosiformConstruction
  import opened ImplicationNetwork
  import opened RoofDuality
  import opened Residuals
  import opened SymmetricResiduals
  import opened Components
  import opened OptimizedTheory
  import opened MaximalFixing
  import opened Fixings
  import FixStandard
  import FixOptimized
  import Worklist
  import FixVariables

  type FlowRoutine = (Csr<int>, nat, nat) -> seq<int>
  type ComponentRoutine = Csr<int> -> (seq<nat>, nat)

  ghost predicate NonNegative(a: Csr<int>) {
    forall k | 0 <= k < |a.values| :: a.values[k] >= 0
  }

  ghost predicate FindsMaximumFlows(maxFlow: FlowRoutine) {
    forall a: Csr<int>, s: nat, t: nat | a.Valid() && NonNegative(a) && s != t :: MaximumFlow(Arcs(a), maxFlow(a, s, t), s, t)
  }

  ghost predicate FindsComponents(strong: ComponentRoutine) {
    forall g: Csr<int> | g.Valid() && g.numRows == g.numCols :: ComponentIds(g, strong(g).0, strong(g).1)
  }

  lemma {:induction false} LinearCapacities(l: Layout, n: nat, ts: seq<LinearTerm>)
    requires forall t | t in ts :: IsLiteral(n, t.lit) && t.coeff > 0
    ensures forall key: Key | key in LinearNetwork(l, n, ts) :: LinearNetwork(l, n, ts)[key] > 0
  {
    if ts != [] {
      assert ts[|ts| - 1] in ts;
      LinearCapacities(l, n, ts[..|ts| - 1]);
    }
  }

  lemma {:induction false} QuadraticCapacities(l: Layout, n: nat, base: map<Key, int>, ts: seq<QuadraticTerm>)
    requires forall t | t in ts :: IsLiteral(n, t.lit1) && IsLiteral(n, t.lit2) && t.coeff > 0
    requires forall key: Key | key in base :: base[key] > 0
    ensures forall key: Key | key in QuadraticNetwork(l, n, base, ts) :: QuadraticNetwork(l, n, base, ts)[key] > 0
  {
    if ts != [] {
      assert ts[|ts| - 1] in ts;
      QuadraticCapacities(l, n, base, ts[..|ts| - 1]);
    }
  }

  lemma NetworkCapacities(l: Layout, p: Posiform, a: Csr<int>)
    requires p.Positive() && a.Valid() && a.View() == NetworkMap(l, p)
    ensures NonNegative(a)
  {
    LinearCapacities(l, p.numVars, p.linear);
    QuadraticCapacities(l, p.numVars, LinearNetwork(l, p.numVars, p.linear), p.quadratic);
    forall k: nat | k < |a.values|
      ensures a.values[k] >= 0
    {
      a.ViewAt(k);
    }
  }

  /** An integer QUBO in the form the posiform is built from. */
  ghost predicate IsQubo(q: Csr<int>) {
    q.Valid() && q.numRows == q.numCols && UpperTriangular(q)
  }

  lemma PosiformReady(q: Csr<int>)
    requires IsQubo(q)
    ensures PosiformOf(q).Positive() && PosiformOf(q).Merged() && PosiformOf(q).numVars == q.numRows
    ensures forall x: Assignment | |x| == q.numRows :: PosiformValue(PosiformOf(q), x) == Energy(q, x)
  {
    PosiformEqualsQubo(q, seq(q.numRows, _ => false));
    PosiformMerged(q);
    forall x: Assignment | |x| == q.numRows
      ensures PosiformValue(PosiformOf(q), x) == Energy(q, x)
    {
      PosiformEqualsQubo(q, x);
    }
  }

  /** Method 2. The fixed literals are the least minimum cut of the posiform. */
  method Standard(q: Csr<int>, maxFlow: FlowRoutine) returns (fixed: seq<Fixing>)
    requires IsQubo(q) && FindsMaximumFlows(maxFlow)
    ensures PosiformOf(q).Positive() && LeastMinimumCut(PosiformOf(q), Fixed(fixed)) && Distinct(fixed)
    ensures forall f | f in fixed :: 1 <= f.0 <= q.numRows && (f.1 == 0 || f.1 == 1)
  {
    PosiformReady(q);
    var p := BQPToPosiform(q);
    var a := PosiformToImplicationNetwork2(p);
    NetworkCapacities(SourceMiddle, p, a);
    var flow := maxFlow(a, Source(SourceMiddle, p.numVars), Sink(SourceMiddle, p.numVars));
    fixed := FixStandard.ApplyImplication(a, p.numVars, flow, p);
  }

  /** Method 1. The fixed literals are a complement-free minimum cut of the posiform, and no larger one contains them. */
  method Optimized(q: Csr<int>, maxFlow: FlowRoutine, strong: ComponentRoutine) returns (fixed: seq<Fixing>)
    requires IsQubo(q) && FindsMaximumFlows(maxFlow) && FindsComponents(strong)
    ensures PosiformOf(q).Positive() && MaximalCut(PosiformOf(q), Fixed(fixed)) && Distinct(fixed)
    ensures forall f | f in fixed :: 1 <= f.0 <= q.numRows && (f.1 == 0 || f.1 == 1)
  {
    PosiformReady(q);
    var p := BQPToPosiform(q);
    var n := p.numVars;
    var a := PosiformToImplicationNetwork1(p);
    NetworkCapacities(SourceFirst, p, a);
    var flow := maxFlow(a, Source(SourceFirst, n), Sink(SourceFirst, n));
    FixStandard.ArcsAre(a);
    NetworkOneWay(p, a);
    var r := ResidualForMethod1(a, flow);
    var g := MakeResidualSymmetric(r, n);
    var (component, num) := strong(g);
    fixed := FixComponents(p, a, flow, r, g, n, component, num);
  }

  lemma NetworkOneWay(p: Posiform, a: Csr<int>)
    requires p.Positive() && p.Merged() && a.Valid() && a.View() == NetworkMap(SourceFirst, p)
    ensures OneWay(a)
  {
    assert Separates(Source(SourceFirst, p.numVars), Sink(SourceFirst, p.numVars), {0});
    NetworkMapCut(SourceFirst, p, {0});
  }

  /** What the search on the condensation marks: the component of the source with 1, what it reaches with 2. */
  ghost predicate Searched(cg: Csr<int>, component: seq<nat>, visited: seq<int>)
    requires cg.Valid() && component != []
  {
    forall c: nat | c < |visited| :: visited[c] == if c == component[0] then 1 else if Reaches(cg, component[0], c) then 2 else 0
  }

  method FixComponents(ghost p: Posiform, ghost a: Csr<int>, ghost flow: seq<int>, ghost r: Csr<int>, g: Csr<int>, n: nat,
                       component: seq<nat>, num: nat)
    returns (fixed: seq<Fixing>)
    requires n == p.numVars && Context(p, a, flow, r, g) && ComponentIds(g, component, num)
    ensures MaximalCut(p, Fixed(fixed)) && Distinct(fixed)
    ensures forall f | f in fixed :: 1 <= f.0 <= n && (f.1 == 0 || f.1 == 1)
  {
    ghost var f, cg, co;
    fixed, f, cg, co := DecideComponents(p, a, flow, r, g, n, component, num);
    ClosedLiterals(p, a, flow, r, g, component, f);
    LiteralsComplementFree(g, r, n, component, num, co, f);
    forall t: set<int> | MinimumCut(p, t) && ComplementFree(t) && Fixed(fixed) <= t
      ensures t == Fixed(fixed)
    {
      FixedIsMaximal(p, a, flow, r, g, component, num, cg, co, f, t);
    }
  }

  /** No arc leaves the components that are fixed, none of them is fixed together with its complement, and no other
  component qualifies. */
  method DecideComponents(ghost p: Posiform, ghost a: Csr<int>, ghost flow: seq<int>, ghost r: Csr<int>, g: Csr<int>, n: nat,
                          component: seq<nat>, num: nat)
    returns (fixed: seq<Fixing>, ghost f: set<nat>, ghost cg: Csr<int>, ghost co: seq<nat>)
    requires n == p.numVars && Context(p, a, flow, r, g) && ComponentIds(g, component, num)
    ensures FixVariables.FixedList(fixed, component, n, f)
    ensures Closed(g, VerticesOf(component, f)) && component[n + 1] !in f
    ensures co == CoTable(component, n, num) && forall c | c in f :: c < num && co[c] !in f
    ensures Condensed(g, r, n, component, num, cg) && Worklist.Exhausted(cg, co, component[0], component[n + 1], f)
    ensures forall c | c in f :: c < num && Worklist.Free(co, component[0], component[n + 1], c)
  {
    var s, graph, classified, x0, x0Bar, visited, pairs;
    s, graph, classified, x0, x0Bar, visited, pairs, co := ReachComponents(p, a, flow, r, g, n, component, num);
    cg := graph;
    fixed, f := FixVariables.FixVariables(classified, s, graph, visited, pairs, x0, x0Bar, co, component, n);
    FixedIsClosed(g, r, n, component, num, cg, co, visited, f);
  }

  /** Everything the worklist starts from. */
  method ReachComponents(ghost p: Posiform, ghost a: Csr<int>, ghost flow: seq<int>, ghost r: Csr<int>, g: Csr<int>, n: nat,
                         component: seq<nat>, num: nat)
    returns (s: seq<SC>, cg: Csr<int>, classified: seq<int>, x0: nat, x0Bar: nat, visited: seq<int>, pairs: map<nat, nat>, ghost co: seq<nat>)
    requires n == p.numVars && Context(p, a, flow, r, g) && ComponentIds(g, component, num)
    ensures Condensed(g, r, n, component, num, cg) && co == CoTable(component, n, num) && Worklist.Skew(cg, co)
    ensures |visited| == |classified| == num && Searched(cg, component, visited)
    ensures x0 < num && x0Bar < num && FixVariables.Tables(s, pairs, component, n, co, x0, x0Bar)
    ensures forall c: nat | c < num :: classified[c] == if co[c] == c then 0 else 1
    ensures Worklist.FixedOk(cg, co, component[0], component[n + 1], FixVariables.VisitedTo(visited, num))
  {
    s, cg, classified, co := DescribeComponents(g, n, component, num, r);
    x0, x0Bar, visited, pairs := SearchComponents(s, cg, classified, n, g, r, component, co);
    VisitedMayBeFixed(p, a, flow, r, g, component, num, cg, co, visited);
  }

  /** The literal lists, the condensation and the classes of the components. */
  method DescribeComponents(g: Csr<int>, n: nat, component: seq<nat>, num: nat, ghost r: Csr<int>)
    returns (s: seq<SC>, cg: Csr<int>, classified: seq<int>, ghost co: seq<nat>)
    requires SymmetricResidual(g, r, n) && ComponentIds(g, component, num)
    ensures |s| == num && FixOptimized.Known(g, r, n, component, num, cg, s, classified)
    ensures forall c: nat | c < num :: NoRepeats(s[c])
    ensures co == CoTable(component, n, num) && Worklist.Skew(cg, co)
  {
    s := ListComponents(component, num, n);
    cg := BuildCondensation(g, component, num);
    classified := ClassifyComponents(s);
    Classified(g, r, n, component, num, s, classified);
    co := CoTable(component, n, num);
    ComplementTable(g, r, n, component, num, cg, co);
  }

  method SearchComponents(s: seq<SC>, cg: Csr<int>, classified: seq<int>, n: nat, ghost g: Csr<int>, ghost r: Csr<int>,
                          ghost component: seq<nat>, ghost co: seq<nat>)
    returns (x0: nat, x0Bar: nat, visited: seq<int>, pairs: map<nat, nat>)
    requires FixOptimized.Known(g, r, n, component, |s|, cg, s, classified) && co == CoTable(component, n, |s|)
    requires forall c: nat | c < |s| :: NoRepeats(s[c])
    ensures x0 < |s| && x0Bar < |s| && FixVariables.Tables(s, pairs, component, n, co, x0, x0Bar)
    ensures |visited| == |s| && Searched(cg, component, visited)
  {
    var free;
    x0, x0Bar, free := FixOptimized.LocateTerminals(classified, s, n, g, r, component, cg);
    visited := FixOptimized.ShortestPath(x0, cg);
    pairs := FixOptimized.ComplementPairs(s, free, n, g, r, component, cg, classified);
    forall c: nat | c < |s| && Worklist.Free(co, x0, x0Bar, c)
      ensures FixOptimized.PairOf(pairs, c) == co[c]
    {
      assert c in free;
    }
  }

  lemma Classified(g: Csr<int>, r: Csr<int>, n: nat, component: seq<nat>, num: nat, s: seq<SC>, classified: seq<int>)
    requires SymmetricResidual(g, r, n) && ComponentIds(g, component, num) && |s| == |classified| == num
    requires forall c: nat | c < num :: ListsComponent(s[c], component, n, c, |component|)
    requires forall i | 0 <= i < |s| :: classified[i] == if exists v :: v in s[i].positive && v in s[i].negative then 0 else 1
    ensures forall c: nat | c < num :: c in component && classified[c] == if Co(component, n, c) == c then 0 else 1
  {
    forall c: nat | c < num
      ensures c in component && classified[c] == if Co(component, n, c) == c then 0 else 1
    {
      FixOptimized.ClassMeansSelfComplementary(g, r, n, component, num, s[c], c);
    }
  }

  ghost function CoTable(component: seq<nat>, n: nat, num: nat): (co: seq<nat>)
    requires |component| == 2 * n + 2 && forall c: nat | c < num :: c in component
    ensures |co| == num && forall c: nat | c < num :: co[c] == Co(component, n, c)
  {
    seq(num, c requires 0 <= c < num => Co(component, n, c))
  }

  lemma ComplementTable(g: Csr<int>, r: Csr<int>, n: nat, component: seq<nat>, num: nat, cg: Csr<int>, co: seq<nat>)
    requires Condensed(g, r, n, component, num, cg) && co == CoTable(component, n, num)
    ensures Worklist.Skew(cg, co)
  {
    forall c: nat | c < num
      ensures co[c] < num && co[co[c]] == c
    {
      CoInvolution(g, r, n, component, num, c);
    }
    forall c: nat, d: nat | c < num && d in Worklist.Out(cg, c)
      ensures d < num && co[c] in Worklist.Out(cg, co[d])
    {
      Worklist.OutIsView(cg, c, d);
      var k := cg.IndexOf((c, d));
      MirrorComponentArc(g, r, n, component, num, cg, c, d);
      Worklist.OutIsView(cg, co[d], co[c]);
    }
  }

  lemma ComponentVertex(component: seq<nat>, n: nat, num: nat, co: seq<nat>, c: nat) returns (v: nat)
    requires |component| == 2 * n + 2 && (forall d: nat | d < num :: d in component) && co == CoTable(component, n, num) && c < num
    ensures v < |component| && component[v] == c && component[Bar(n, v)] == co[c]
  {
    assert c in component;
    var d := Co(component, n, c);
    v :| v < |component| && component[v] == c && d == component[Bar(n, v)];
  }

  lemma VisitedMayBeFixed(p: Posiform, a: Csr<int>, flow: seq<int>, r: Csr<int>, g: Csr<int>,
                          component: seq<nat>, num: nat, cg: Csr<int>, co: seq<nat>, visited: seq<int>)
    requires Context(p, a, flow, r, g) && Condensed(g, r, p.numVars, component, num, cg)
    requires co == CoTable(component, p.numVars, num) && Worklist.Skew(cg, co) && |visited| == num
    requires Searched(cg, component, visited)
    ensures Worklist.FixedOk(cg, co, component[0], component[p.numVars + 1], FixVariables.VisitedTo(visited, num))
  {
    var n, f, x0 := p.numVars, FixVariables.VisitedTo(visited, num), component[0];
    forall c | c in f
      ensures Worklist.Free(co, x0, component[n + 1], c) && co[c] !in f
    {
      var v := ComponentVertex(component, n, num, co, c);
      BarNotReached(p, a, flow, r, g, component, num, cg, v);
      TerminalsAlone(g, r, n, component, num, v);
    }
    forall c, d | c in f && d in Worklist.Out(cg, c)
      ensures d in f
    {
      Worklist.OutIsView(cg, c, d);
      var k := cg.IndexOf((c, d));
      assert cg.InRow(c, k);
      ReachesStep(cg, x0, c, k);
      NotIntoSource(g, r, n, component, num, cg, c, d);
    }
  }

  lemma NotIntoSource(g: Csr<int>, r: Csr<int>, n: nat, component: seq<nat>, num: nat, cg: Csr<int>, c: nat, d: nat)
    requires Condensed(g, r, n, component, num, cg) && (c, d) in cg.View()
    ensures d != component[0]
  {
    var u: nat, v: nat :| u < |component| && v < |component| && component[u] == c && component[v] == d && IsArc(g, u, v);
    TerminalsAlone(g, r, n, component, num, v);
  }

  lemma BarNotReached(p: Posiform, a: Csr<int>, flow: seq<int>, r: Csr<int>, g: Csr<int>, component: seq<nat>, num: nat, cg: Csr<int>, v: nat)
    requires Context(p, a, flow, r, g) && Condensed(g, r, p.numVars, component, num, cg)
    requires v < |component| && Reaches(cg, component[0], component[v])
    ensures v != p.numVars + 1 && !Reaches(cg, component[0], component[Bar(p.numVars, v)])
  {
    ReachedVertex(g, r, p.numVars, component, num, cg, v);
    ReachedIsComplementFree(p, a, flow, r, g, v);
    ReachedVertex(g, r, p.numVars, component, num, cg, Bar(p.numVars, v));
  }

  lemma ReachedVertex(g: Csr<int>, r: Csr<int>, n: nat, component: seq<nat>, num: nat, cg: Csr<int>, v: nat)
    requires Condensed(g, r, n, component, num, cg) && v < |component|
    ensures Reaches(cg, component[0], component[v]) ==> Reaches(g, 0, v)
  {
    if Reaches(cg, component[0], component[v]) {
      CondensationReaches(g, r, n, component, num, cg, v);
    }
  }

  ghost function VerticesOf(component: seq<nat>, f: set<nat>): (w: set<nat>)
    ensures forall v: nat :: v in w <==> v == 0 || (v < |component| && component[v] in f)
  {
    {0} + set v: nat | v in UpTo(|component|) && component[v] in f
  }

  lemma ClosedLiterals(p: Posiform, a: Csr<int>, flow: seq<int>, r: Csr<int>, g: Csr<int>, component: seq<nat>, f: set<nat>)
    requires Context(p, a, flow, r, g) && |component| == 2 * p.numVars + 2
    requires Closed(g, VerticesOf(component, f)) && component[p.numVars + 1] !in f
    ensures MinimumCut(p, {0} + FixVariables.LiteralsOf(component, p.numVars, f))
  {
    ClosedSetIsMinimumCut(p, a, flow, r, g, VerticesOf(component, f));
    CodesAreLiterals(component, p.numVars, f);
  }

  lemma FixedIsClosed(g: Csr<int>, r: Csr<int>, n: nat, component: seq<nat>, num: nat, cg: Csr<int>, co: seq<nat>,
                      visited: seq<int>, f: set<nat>)
    requires Condensed(g, r, n, component, num, cg) && Worklist.Skew(cg, co) && |visited| == num == |co| && component != []
    requires Searched(cg, component, visited)
    requires Worklist.FixedOk(cg, co, component[0], component[n + 1], f) && FixVariables.VisitedTo(visited, num) <= f
    ensures Closed(g, VerticesOf(component, f))
  {
    var w := VerticesOf(component, f);
    forall u: nat, v: nat | u in w && IsArc(g, u, v)
      ensures v in w
    {
      ArcInRange(g, u, v);
      FollowArc(g, r, n, component, num, cg, co, visited, f, u, v);
    }
    ClosedIf(g, w);
  }

  lemma FollowArc(g: Csr<int>, r: Csr<int>, n: nat, component: seq<nat>, num: nat, cg: Csr<int>, co: seq<nat>,
                  visited: seq<int>, f: set<nat>, u: nat, v: nat)
    requires Condensed(g, r, n, component, num, cg) && u < 2 * n + 2 && v < 2 * n + 2 && IsArc(g, u, v)
    requires Worklist.Skew(cg, co) && |visited| == num == |co| && component != []
    requires Searched(cg, component, visited)
    requires Worklist.FixedOk(cg, co, component[0], component[n + 1], f) && FixVariables.VisitedTo(visited, num) <= f
    requires u == 0 || component[u] in f
    ensures component[v] in f
  {
    var c, d := component[u], component[v];
    if c != d {
      assert ComponentArc(g, component, c, d);
      Worklist.OutIsView(cg, c, d);
      if u == 0 {
        var k := cg.IndexOf((c, d));
        assert cg.InRow(c, k) && Reaches(cg, c, c);
        ReachesStep(cg, c, c, k);
        assert d in FixVariables.VisitedTo(visited, num);
      }
    } else {
      TerminalsAlone(g, r, n, component, num, v);
    }
  }

  lemma CodesAreLiterals(component: seq<nat>, n: nat, f: set<nat>)
    requires |component| == 2 * n + 2
    ensures Codes(SourceFirst, n, VerticesOf(component, f)) == {0} + FixVariables.LiteralsOf(component, n, f)
  {
    var w := VerticesOf(component, f);
    forall c: int | Abs(c) <= n
      ensures c in Codes(SourceFirst, n, w) <==> c == 0 || c in FixVariables.LiteralsOf(component, n, f)
    {
      VertexFacts(SourceFirst, n, c);
    }
  }

  lemma OneSign(g: Csr<int>, r: Csr<int>, n: nat, component: seq<nat>, num: nat, co: seq<nat>, f: set<nat>, c: int)
    requires SymmetricResidual(g, r, n) && ComponentIds(g, component, num) && co == CoTable(component, n, num)
    requires forall d | d in f :: d < num && co[d] !in f
    requires 0 < c <= n && component[c] in f
    ensures component[n + 1 + c] !in f
  {
    CoOf(g, r, n, component, num, c);
    assert co[component[c]] == component[Bar(n, c)] == component[n + 1 + c];
  }

  lemma LiteralsComplementFree(g: Csr<int>, r: Csr<int>, n: nat, component: seq<nat>, num: nat, co: seq<nat>, f: set<nat>)
    requires SymmetricResidual(g, r, n) && ComponentIds(g, component, num) && co == CoTable(component, n, num)
    requires forall c | c in f :: c < num && co[c] !in f
    ensures ComplementFree({0} + FixVariables.LiteralsOf(component, n, f))
  {
    var s := {0} + FixVariables.LiteralsOf(component, n, f);
    forall c | c in s && -c in s
      ensures c == 0
    {
      if c != 0 {
        OneSignOf(g, r, n, component, num, co, f, if c > 0 then c else -c);
      }
    }
  }

  lemma OneSignOf(g: Csr<int>, r: Csr<int>, n: nat, component: seq<nat>, num: nat, co: seq<nat>, f: set<nat>, c: int)
    requires SymmetricResidual(g, r, n) && ComponentIds(g, component, num) && co == CoTable(component, n, num)
    requires forall d | d in f :: d < num && co[d] !in f
    requires c > 0
    ensures c !in FixVariables.LiteralsOf(component, n, f) || -c !in FixVariables.LiteralsOf(component, n, f)
  {
    if c in FixVariables.LiteralsOf(component, n, f) {
      OneSign(g, r, n, component, num, co, f, c);
    }
  }

  // ---------------------------------------------------------------- what the documentation promises

  lemma AgreesIffTrue(x: Assignment, fixed: seq<Fixing>)
    requires forall f | f in fixed :: 1 <= f.0 <= |x| && (f.1 == 0 || f.1 == 1)
    ensures Agrees(x, fixed) <==> Fixed(fixed) <= TrueLiterals(x)
  {
    forall f | f in fixed
      ensures Code(f) in Fixed(fixed) && (Code(f) in TrueLiterals(x) <==> x[f.0 - 1] == (f.1 == 1))
    {
    }
    if Agrees(x, fixed) {
      forall c | c in Fixed(fixed)
        ensures c in TrueLiterals(x)
      {
        if c != 0 {
          var f :| f in fixed && Code(f) == c;
        }
      }
    }
  }

  lemma OptimalTransfers(q: Csr<int>, x: Assignment)
    requires IsQubo(q) && PosiformOf(q).Positive()
    ensures PosiformOptimal(PosiformOf(q), x) <==> Optimal(q, x)
  {
    PosiformReady(q);
  }

  /** Variables fixed by the standard method take the fixed value in every optimal solution. */
  lemma StandardHoldsInEveryOptimum(q: Csr<int>, fixed: seq<Fixing>, x: Assignment)
    requires IsQubo(q) && PosiformOf(q).Positive() && LeastMinimumCut(PosiformOf(q), Fixed(fixed))
    requires forall f | f in fixed :: 1 <= f.0 <= q.numRows && (f.1 == 0 || f.1 == 1)
    requires Optimal(q, x)
    ensures Agrees(x, fixed)
  {
    PosiformReady(q);
    OptimalTransfers(q, x);
    StrongPersistency(PosiformOf(q), Fixed(fixed), x);
    AgreesIffTrue(x, fixed);
  }

  /** Some optimal solution has all the values fixed by the optimized method. */
  lemma OptimizedHoldsInSomeOptimum(q: Csr<int>, fixed: seq<Fixing>) returns (x: Assignment)
    requires IsQubo(q) && PosiformOf(q).Positive()
    requires MinimumCut(PosiformOf(q), Fixed(fixed)) && ComplementFree(Fixed(fixed))
    requires forall f | f in fixed :: 1 <= f.0 <= q.numRows && (f.1 == 0 || f.1 == 1)
    ensures Optimal(q, x) && Agrees(x, fixed)
  {
    PosiformReady(q);
    var p := PosiformOf(q);
    var best := OptimalExists(p, seq(q.numRows, _ => false));
    WeakPersistency(p, Fixed(fixed), best);
    x := Overwrite(best, Fixed(fixed));
    OptimalTransfers(q, x);
    AgreesIffTrue(x, fixed);
  }

  /** Whatever the standard method fixes, the optimized method fixes to the same value. */
  lemma StandardWithinOptimized(q: Csr<int>, standard: seq<Fixing>, optimized: seq<Fixing>, f: Fixing)
    requires IsQubo(q) && PosiformOf(q).Positive()
    requires LeastMinimumCut(PosiformOf(q), Fixed(standard)) && MinimumCut(PosiformOf(q), Fixed(optimized))
    requires forall g | g in standard || g in optimized :: 1 <= g.0 <= q.numRows && (g.1 == 0 || g.1 == 1)
    requires f in standard
    ensures f in optimized
  {
    assert Code(f) in Fixed(standard);
    LeastIsWithin(PosiformOf(q), Fixed(standard), Fixed(optimized));
    CodeDetermines(optimized, f);
  }

  lemma LeastIsWithin(p: Posiform, least: set<int>, cut: set<int>)
    requires p.Positive() && LeastMinimumCut(p, least) && MinimumCut(p, cut)
    ensures least <= cut
  {
  }

  lemma CodeDetermines(fixed: seq<Fixing>, f: Fixing)
    requires forall g | g in fixed + [f] :: g.0 >= 1 && (g.1 == 0 || g.1 == 1)
    requires Code(f) in Fixed(fixed)
    ensures f in fixed
  {
    assert f in fixed + [f];
    var g :| g in fixed && Code(g) == Code(f);
    assert g in fixed + [f];
  }
}
