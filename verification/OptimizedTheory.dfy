/** Why method 1 may fix what it fixes: complementary components, closed sets and minimum cuts. */
module OptimizedTheory {
  import opened CompressedMatrices
  import opened Qubo
  import opened Flows
  import opened Graphs
  import opened ImplicationNetwork
  import opened RoofDuality
  import opened MinimumCuts
  import opened Residuals
  import opened SymmetricResiduals
  import opened Components

  /** `r` is the residual matrix of a maximum flow in the network of `p`, `g` its symmetrised form. */
  ghost predicate Context(p: Posiform, a: Csr<int>, flow: seq<int>, r: Csr<int>, g: Csr<int>) {
    && Solved(SourceFirst, p, a, flow)
    && SymmetricResidual(g, r, p.numVars)
    && |flow| == |a.values|
    && forall u: nat, v: nat :: IsArc(r, u, v) <==> HasResidual(a, flow, |flow|, u, v)
  }

  lemma ArcOfNetwork(a: Csr<int>, k: nat)
    requires a.Valid() && k < |a.values|
    ensures k < |Arcs(a)| && Arcs(a)[k] == Arc(a.KeyAt(k).0, a.KeyAt(k).1, a.values[k])
  {
  }

  lemma ResidualClosedArc(p: Posiform, a: Csr<int>, flow: seq<int>, r: Csr<int>, g: Csr<int>, w: set<nat>, u: nat, v: nat)
    requires Context(p, a, flow, r, g) && ResidualClosed(Arcs(a), flow, w) && u in w && IsArc(r, u, v)
    ensures v in w
  {
    var k: nat :| k < |flow| && ResidualArc(a, flow, k, u, v);
    ArcOfNetwork(a, k);
  }

  /** A separating set that no symmetrised arc leaves is a minimum cut. */
  lemma ClosedSetIsMinimumCut(p: Posiform, a: Csr<int>, flow: seq<int>, r: Csr<int>, g: Csr<int>, w: set<nat>)
    requires Context(p, a, flow, r, g) && Closed(g, w)
    requires Separates(0, p.numVars + 1, w) && forall v | v in w :: v < 2 * p.numVars + 2
    ensures ResidualClosed(Arcs(a), flow, w) && MinimumCut(p, Codes(SourceFirst, p.numVars, w))
  {
    forall k: nat | k < |flow|
      ensures Leaves(Arcs(a)[k], w) ==> flow[k] == Arcs(a)[k].cap
      ensures Enters(Arcs(a)[k], w) ==> flow[k] == 0
    {
      var (u, v) := a.KeyAt(k);
      ArcOfNetwork(a, k);
      if u in w && v !in w && flow[k] < a.values[k] {
        assert ResidualArc(a, flow, k, u, v);
        SymmetricArc(p, a, flow, r, g, u, v);
        ClosedArc(g, w, u, v);
      }
      if v in w && u !in w && flow[k] > 0 {
        assert ResidualArc(a, flow, k, v, u);
        SymmetricArc(p, a, flow, r, g, v, u);
        ClosedArc(g, w, v, u);
      }
    }
    ClosedIsMinimumCut(SourceFirst, p, a, flow, w);
  }

  lemma SymmetricArc(p: Posiform, a: Csr<int>, flow: seq<int>, r: Csr<int>, g: Csr<int>, u: nat, v: nat)
    requires Context(p, a, flow, r, g) && IsArc(r, u, v) && u != v && u != p.numVars + 1 && v != 0
    ensures IsArc(g, u, v)
  {
    ArcInRange(r, u, v);
  }

  lemma MirrorCodes(n: nat, w: set<nat>)
    requires Separates(0, n + 1, w)
    ensures Codes(SourceFirst, n, MirrorSet(n, w)) == Mirror(n, Codes(SourceFirst, n, w))
    ensures VertexSet(SourceFirst, n, Mirror(n, Codes(SourceFirst, n, w))) == MirrorSet(n, w)
  {
    var m, codes := MirrorSet(n, w), Codes(SourceFirst, n, w);
    assert Bar(n, n + 1) == 0 && Bar(n, 0) == n + 1;
    forall c: int | Abs(c) <= n
      ensures c in Codes(SourceFirst, n, m) <==> c in Mirror(n, codes)
    {
      VertexFacts(SourceFirst, n, c);
      CodesOf(SourceFirst, n, w, c);
    }
    assert Codes(SourceFirst, n, m) == Mirror(n, codes);
    forall v | v in m
      ensures v in VertexSet(SourceFirst, n, Mirror(n, codes))
    {
      var c: int := if v <= n then v else 0 - (v - (n + 1));
      assert Vertex(SourceFirst, n, c) == v && c in Codes(SourceFirst, n, m);
    }
  }

  /** There is a complement-free separating set that no symmetrised arc leaves: a minimum cut met with its mirror image. */
  lemma SymmetricClosedSet(p: Posiform, a: Csr<int>, flow: seq<int>, r: Csr<int>, g: Csr<int>) returns (d: set<nat>)
    requires Context(p, a, flow, r, g)
    ensures Closed(g, d) && Separates(0, p.numVars + 1, d)
    ensures forall v | v in d :: v < 2 * p.numVars + 2 && Bar(p.numVars, v) !in d
  {
    var n := p.numVars;
    var w: set<nat> :| 0 in w && n + 1 !in w && ResidualClosed(Arcs(a), flow, w);
    var m := MirrorSet(n, w);
    ClosedIsMinimumCut(SourceFirst, p, a, flow, w);
    MirrorOfMinimum(p, Codes(SourceFirst, n, w));
    MirrorCodes(n, w);
    MinimumCutIsClosed(SourceFirst, p, a, flow, Mirror(n, Codes(SourceFirst, n, w)));
    d := w * m;
    assert Bar(n, n + 1) == 0 && Bar(n, 0) == n + 1;
    forall u: nat, v: nat | u in d && IsArc(g, u, v)
      ensures v in d
    {
      ArcInRange(g, u, v);
      StaysInBoth(p, a, flow, r, g, w, m, u, v);
    }
    ClosedIf(g, d);
  }

  lemma StaysInBoth(p: Posiform, a: Csr<int>, flow: seq<int>, r: Csr<int>, g: Csr<int>, w: set<nat>, m: set<nat>, u: nat, v: nat)
    requires Context(p, a, flow, r, g) && m == MirrorSet(p.numVars, w)
    requires ResidualClosed(Arcs(a), flow, w) && ResidualClosed(Arcs(a), flow, m)
    requires u < 2 * p.numVars + 2 && v < 2 * p.numVars + 2 && u in w && u in m && IsArc(g, u, v)
    ensures v in w && v in m
  {
    var n := p.numVars;
    assert Bar(n, Bar(n, u)) == u && Bar(n, Bar(n, v)) == v;
    assert Bar(n, u) < 2 * n + 2 && Bar(n, v) < 2 * n + 2;
    if IsArc(r, u, v) {
      ResidualClosedArc(p, a, flow, r, g, w, u, v);
      ResidualClosedArc(p, a, flow, r, g, m, u, v);
    } else {
      assert IsArc(r, Bar(n, v), Bar(n, u));
      if Bar(n, v) in m {
        ResidualClosedArc(p, a, flow, r, g, m, Bar(n, v), Bar(n, u));
      }
      if Bar(n, v) in w {
        ResidualClosedArc(p, a, flow, r, g, w, Bar(n, v), Bar(n, u));
      }
    }
  }

  /** Nothing the source reaches has its negation reached, and the sink is not reached. */
  lemma ReachedIsComplementFree(p: Posiform, a: Csr<int>, flow: seq<int>, r: Csr<int>, g: Csr<int>, v: nat)
    requires Context(p, a, flow, r, g) && Reaches(g, 0, v)
    ensures v < 2 * p.numVars + 2 && v != p.numVars + 1 && !Reaches(g, 0, Bar(p.numVars, v))
  {
    var d := SymmetricClosedSet(p, a, flow, r, g);
    assert v in d;
  }

  // ---------------------------------------------------------------- complementary components

  ghost predicate Condensed(g: Csr<int>, r: Csr<int>, n: nat, component: seq<nat>, num: nat, cg: Csr<int>) {
    SymmetricResidual(g, r, n) && ComponentIds(g, component, num) && Condensation(cg, g, component, num)
  }

  /** The component of the negated literals of component `c`. */
  ghost function Co(component: seq<nat>, n: nat, c: nat): (d: nat)
    requires |component| == 2 * n + 2 && c in component
    ensures exists v: nat :: v < |component| && component[v] == c && d == component[Bar(n, v)]
  {
    var v: nat :| v < |component| && component[v] == c;
    component[Bar(n, v)]
  }

  lemma CoOf(g: Csr<int>, r: Csr<int>, n: nat, component: seq<nat>, num: nat, v: nat)
    requires SymmetricResidual(g, r, n) && ComponentIds(g, component, num) && v < 2 * n + 2
    ensures component[v] in component && Co(component, n, component[v]) == component[Bar(n, v)]
  {
    assert component[v] in component;
    var c, d := component[v], Co(component, n, component[v]);
    var w: nat :| w < |component| && component[w] == c && d == component[Bar(n, w)];
    MirrorReaches(g, r, n, v, w);
    MirrorReaches(g, r, n, w, v);
    assert Bar(n, v) < |component| && Bar(n, w) < |component|;
  }

  lemma CoInvolution(g: Csr<int>, r: Csr<int>, n: nat, component: seq<nat>, num: nat, c: nat)
    requires SymmetricResidual(g, r, n) && ComponentIds(g, component, num) && c < num
    ensures c in component && Co(component, n, c) in component && Co(component, n, Co(component, n, c)) == c
  {
    assert c in component;
    var v: nat :| v < |component| && component[v] == c;
    CoOf(g, r, n, component, num, v);
    CoOf(g, r, n, component, num, Bar(n, v));
    assert Bar(n, Bar(n, v)) == v;
  }

  lemma MirrorComponentArc(g: Csr<int>, r: Csr<int>, n: nat, component: seq<nat>, num: nat, cg: Csr<int>, c: nat, d: nat)
    requires Condensed(g, r, n, component, num, cg) && ComponentArc(g, component, c, d)
    ensures c in component && d in component && ComponentArc(g, component, Co(component, n, d), Co(component, n, c))
  {
    var u: nat, v: nat :| u < |component| && v < |component| && component[u] == c && component[v] == d && IsArc(g, u, v);
    CoOf(g, r, n, component, num, u);
    CoOf(g, r, n, component, num, v);
    MirrorArc(g, r, n, u, v);
    CoInvolution(g, r, n, component, num, c);
    CoInvolution(g, r, n, component, num, d);
    assert Bar(n, u) < |component| && Bar(n, v) < |component|;
  }

  /** Source and sink are components of their own. */
  lemma TerminalsAlone(g: Csr<int>, r: Csr<int>, n: nat, component: seq<nat>, num: nat, v: nat)
    requires SymmetricResidual(g, r, n) && ComponentIds(g, component, num) && v < 2 * n + 2
    ensures component[v] == component[0] ==> v == 0
    ensures component[v] == component[n + 1] ==> v == n + 1
  {
    var t := n + 1;
    var rest, sink := UpToExcept(2 * n + 2, 0), {t};
    forall u: nat, w: nat | u in rest && IsArc(g, u, w)
      ensures w in rest
    {
      ArcInRange(g, u, w);
    }
    ClosedIf(g, rest);
    forall w: nat
      ensures !IsArc(g, t, w)
    {
      if IsArc(g, t, w) {
        ArcInRange(g, t, w);
      }
    }
    ClosedIf(g, sink);
  }

  ghost function UpToExcept(n: nat, x: nat): (s: set<nat>)
    ensures forall v: nat :: v in s <==> v < n && v != x
  {
    if n == 0 then {} else UpToExcept(n - 1, x) + if n - 1 == x then {} else {n - 1}
  }

  /** Whatever component the condensation reaches from the source's component, its vertices are reached from the source. */
  lemma CondensationReaches(g: Csr<int>, r: Csr<int>, n: nat, component: seq<nat>, num: nat, cg: Csr<int>, v: nat)
    requires Condensed(g, r, n, component, num, cg) && v < 2 * n + 2 && Reaches(cg, component[0], component[v])
    ensures Reaches(g, 0, v)
  {
    var c := set c | c in component && forall w: nat | w < |component| && component[w] == c :: Reaches(g, 0, w);
    forall w: nat | w < |component| && component[w] == component[0]
      ensures Reaches(g, 0, w)
    {
    }
    forall x: nat, y: nat | x in c && IsArc(cg, x, y)
      ensures y in c
    {
      var u: nat, w: nat :| u < |component| && w < |component| && component[u] == x && component[w] == y && IsArc(g, u, w);
      var k := g.IndexOf((u, w));
      ReachesStep(g, 0, u, k);
      forall z: nat | z < |component| && component[z] == y
        ensures Reaches(g, 0, z)
      {
        ReachesTransitive(g, 0, w, z);
      }
    }
    ClosedIf(cg, c);
    assert component[v] in c;
  }
}
