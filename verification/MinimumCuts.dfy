/** From residual-closed vertex sets of an implication network to minimum cuts of the posiform, and back. */
module MinimumCuts {
  import opened CompressedMatrices
  import opened Qubo
  import opened Flows
  import opened ImplicationNetwork
  import opened RoofDuality
  import Posiforms = PosiformConstruction

  ghost function VertexSet(l: Layout, n: nat, s: set<int>): set<nat>
    requires IsCut(n, s)
  {
    set c | c in s :: Vertex(l, n, c)
  }

  lemma CodesOfVertexSet(l: Layout, n: nat, s: set<int>)
    requires IsCut(n, s)
    ensures Codes(l, n, VertexSet(l, n, s)) == s
    ensures Separates(Source(l, n), Sink(l, n), VertexSet(l, n, s))
  {
    var w := VertexSet(l, n, s);
    forall c | c in s
      ensures Vertex(l, n, c) != Sink(l, n)
    {
      VertexFacts(l, n, c);
    }
    assert Vertex(l, n, 0) in w;
    forall c | c in Codes(l, n, w)
      ensures c in s
    {
      var d :| d in s && Vertex(l, n, d) == Vertex(l, n, c);
      VertexInjective(l, n, c, d);
    }
  }

  /** The capacity from the true to the false literals of an assignment is twice its value without the constant. */
  lemma AssignmentCut(l: Layout, q: Csr<int>, a: Csr<int>, x: Assignment)
    requires q.Valid() && q.numRows == q.numCols == |x| && Posiforms.UpperTriangular(q)
    requires Posiforms.PosiformOf(q).Positive() && a.Valid() && a.View() == NetworkMap(l, Posiforms.PosiformOf(q))
    ensures CutCapacity(Arcs(a), VertexSet(l, |x|, TrueLiterals(x))) == 2 * (Energy(q, x) - Posiforms.PosiformOf(q).cst)
  {
    var p := Posiforms.PosiformOf(q);
    Posiforms.PosiformEqualsQubo(q, x);
    Posiforms.PosiformMerged(q);
    CodesOfVertexSet(l, |x|, TrueLiterals(x));
    NetworkCut(l, p, a, VertexSet(l, |x|, TrueLiterals(x)));
    CutIsTwiceValue(p, x);
  }

  /** `a` is the network of `p` in numbering `l` and `flow` is a maximum flow of it. */
  ghost predicate Solved(l: Layout, p: Posiform, a: Csr<int>, flow: seq<int>) {
    && p.Positive() && p.Merged() && a.Valid() && a.View() == NetworkMap(l, p)
    && MaximumFlow(Arcs(a), flow, Source(l, p.numVars), Sink(l, p.numVars))
  }

  lemma ClosedIsMinimumCut(l: Layout, p: Posiform, a: Csr<int>, flow: seq<int>, w: set<nat>)
    requires Solved(l, p, a, flow)
    requires Separates(Source(l, p.numVars), Sink(l, p.numVars), w) && ResidualClosed(Arcs(a), flow, w)
    ensures MinimumCut(p, Codes(l, p.numVars, w))
  {
    var n := p.numVars;
    MinimumIffClosed(Arcs(a), flow, Source(l, n), Sink(l, n), w);
    NetworkCut(l, p, a, w);
    CodesOf(l, n, w, 0);
    forall t: set<int> | IsCut(n, t)
      ensures Cut(p, Codes(l, n, w)) <= Cut(p, t)
    {
      CodesOfVertexSet(l, n, t);
      NetworkCut(l, p, a, VertexSet(l, n, t));
    }
  }

  lemma MinimumCutIsClosed(l: Layout, p: Posiform, a: Csr<int>, flow: seq<int>, s: set<int>)
    requires Solved(l, p, a, flow) && MinimumCut(p, s)
    ensures ResidualClosed(Arcs(a), flow, VertexSet(l, p.numVars, s))
  {
    var n := p.numVars;
    var w := VertexSet(l, n, s);
    CodesOfVertexSet(l, n, s);
    NetworkCut(l, p, a, w);
    forall v: set<nat> | Separates(Source(l, n), Sink(l, n), v)
      ensures CutCapacity(Arcs(a), w) <= CutCapacity(Arcs(a), v)
    {
      NetworkCut(l, p, a, v);
      CodesOf(l, n, v, 0);
      assert IsCut(n, Codes(l, n, v));
    }
    MinimumIffClosed(Arcs(a), flow, Source(l, n), Sink(l, n), w);
  }
}
