/** Why method 1 cannot fix more: the fixed literals are not contained in any larger complement-free minimum cut. */
module MaximalFixing {
  import opened CompressedMatrices
  import opened Qubo
  import opened Queues
  import opened Flows
  import opened Graphs
  import opened ImplicationNetwork
  import opened RoofDuality
  import opened MinimumCuts
  import opened SymmetricResiduals
  import opened Components
  import opened OptimizedTheory
  import opened Worklist
  import FixVariables

  // ---------------------------------------------------------------- cuts as sets of vertices

  /** A separating set that no symmetrised arc leaves and that contains no vertex together with its negation. */
  ghost predicate ClosedHalf(g: Csr<int>, n: nat, w: set<nat>) {
    && g.Valid() && Closed(g, w) && Separates(0, n + 1, w)
    && forall v | v in w :: v < 2 * n + 2 && Bar(n, v) !in w
  }

  lemma HalfOfCut(n: nat, t: set<int>)
    requires IsCut(n, t) && ComplementFree(t)
    ensures var w := VertexSet(SourceFirst, n, t); forall v | v in w :: v < 2 * n + 2 && Bar(n, v) !in w
  {
    var w := VertexSet(SourceFirst, n, t);
    CodesOfVertexSet(SourceFirst, n, t);
    forall v | v in w
      ensures v < 2 * n + 2 && Bar(n, v) !in w
    {
      var c :| c in t && Vertex(SourceFirst, n, c) == v;
      VertexFacts(SourceFirst, n, c);
      CodesOf(SourceFirst, n, w, c);
    }
  }

  lemma MirrorResidualClosed(p: Posiform, a: Csr<int>, flow: seq<int>, t: set<int>)
    requires Solved(SourceFirst, p, a, flow) && MinimumCut(p, t)
    ensures var w := VertexSet(SourceFirst, p.numVars, t);
            ResidualClosed(Arcs(a), flow, w) && ResidualClosed(Arcs(a), flow, MirrorSet(p.numVars, w))
  {
    var n := p.numVars;
    CodesOfVertexSet(SourceFirst, n, t);
    MinimumCutIsClosed(SourceFirst, p, a, flow, t);
    MirrorOfMinimum(p, t);
    MinimumCutIsClosed(SourceFirst, p, a, flow, Mirror(n, t));
    MirrorCodes(n, VertexSet(SourceFirst, n, t));
  }

  /** The vertices of a complement-free minimum cut are such a set: they lie within their mirror image, and residual arcs
  leave neither. */
  lemma MinimumCutIsHalf(p: Posiform, a: Csr<int>, flow: seq<int>, r: Csr<int>, g: Csr<int>, t: set<int>)
    requires Context(p, a, flow, r, g) && MinimumCut(p, t) && ComplementFree(t)
    ensures ClosedHalf(g, p.numVars, VertexSet(SourceFirst, p.numVars, t))
  {
    var n, w := p.numVars, VertexSet(SourceFirst, p.numVars, t);
    var m := MirrorSet(n, w);
    CodesOfVertexSet(SourceFirst, n, t);
    HalfOfCut(n, t);
    MirrorResidualClosed(p, a, flow, t);
    forall u: nat, v: nat | u in w && IsArc(g, u, v)
      ensures v in w
    {
      ArcInRange(g, u, v);
      StaysInBoth(p, a, flow, r, g, w, m, u, v);
    }
    ClosedIf(g, w);
  }

  // ---------------------------------------------------------------- a last component

  ghost function ReachSet(g: Csr<int>, u: nat): (s: set<nat>)
    requires g.Valid()
    ensures forall v: nat :: v in s <==> v < g.numRows && Reaches(g, u, v)
  {
    set v: nat | v in UpTo(g.numRows) && Reaches(g, u, v)
  }

  /** Following an arc to another component leaves the present one for good. */
  lemma ReachSetShrinks(g: Csr<int>, component: seq<nat>, num: nat, u: nat, c: nat, d: nat) returns (w: nat)
    requires ComponentIds(g, component, num) && u < |component| && component[u] == c && ComponentArc(g, component, c, d)
    ensures w < |component| && component[w] == d && ReachSet(g, w) < ReachSet(g, u)
  {
    var x: nat, y: nat :| x < |component| && y < |component| && component[x] == c && component[y] == d && IsArc(g, x, y);
    w := y;
    var k := g.IndexOf((x, y));
    assert g.InRow(x, k);
    ReachesStep(g, u, x, k);
    ReachedLess(g, u, w);
  }

  lemma ReachedLess(g: Csr<int>, u: nat, w: nat)
    requires g.Valid() && u < g.numRows && Reaches(g, u, w) && !Reaches(g, w, u)
    ensures ReachSet(g, w) < ReachSet(g, u)
  {
    forall v | v in ReachSet(g, w)
      ensures v in ReachSet(g, u)
    {
      ReachesTransitive(g, u, w, v);
    }
    assert Reaches(g, u, u) && u in ReachSet(g, u);
  }

  /** The condensation has no cycle, so some component of a nonempty set has no successor in the set. */
  lemma {:induction false} LastComponent(g: Csr<int>, component: seq<nat>, num: nat, cg: Csr<int>, rest: set<nat>, u: nat) returns (last: nat)
    requires ComponentIds(g, component, num) && Condensation(cg, g, component, num)
    requires u < |component| && component[u] in rest
    ensures last in rest && Out(cg, last) !! rest
    decreases ReachSet(g, u)
  {
    var c := component[u];
    if Out(cg, c) !! rest {
      last := c;
    } else {
      var d: nat :| d in Out(cg, c) && d in rest;
      OutIsView(cg, c, d);
      var w := ReachSetShrinks(g, component, num, u, c, d);
      last := LastComponent(g, component, num, cg, rest, w);
    }
  }

  // ---------------------------------------------------------------- nothing is left out

  /** Components other than that of the source that lie in `w`. */
  ghost function ComponentsIn(component: seq<nat>, w: set<nat>): (h: set<nat>)
    requires component != []
    ensures forall c: nat :: c in h <==> c != component[0] && Inhabits(component, w, c)
  {
    set v: nat | v in UpTo(|component|) && v in w && component[v] != component[0] :: component[v]
  }

  ghost predicate Inhabits(component: seq<nat>, w: set<nat>, c: nat) {
    exists v: nat :: v < |component| && v in w && component[v] == c
  }

  /** A closed set contains its components wholly. */
  lemma WholeComponents(g: Csr<int>, component: seq<nat>, num: nat, w: set<nat>, v: nat)
    requires ComponentIds(g, component, num) && Closed(g, w) && v < |component| && Inhabits(component, w, component[v])
    ensures v in w
  {
    var u: nat :| u < |component| && u in w && component[u] == component[v];
  }

  /** The components of the set are free, exclude their complements, and keep their successors. */
  lemma HalfComponents(g: Csr<int>, r: Csr<int>, n: nat, component: seq<nat>, num: nat, cg: Csr<int>, co: seq<nat>, w: set<nat>, c: nat)
    requires Condensed(g, r, n, component, num, cg) && IsCoTable(component, n, num, co) && ClosedHalf(g, n, w)
    requires c in ComponentsIn(component, w)
    ensures c < num && Free(co, component[0], component[n + 1], c) && co[c] !in ComponentsIn(component, w)
    ensures Out(cg, c) <= ComponentsIn(component, w)
  {
    var u: nat :| u < |component| && u in w && component[u] == c;
    CoOf(g, r, n, component, num, u);
    TerminalsAlone(g, r, n, component, num, u);
    assert Bar(n, u) < |component| && Bar(n, u) !in w;
    assert Inhabits(component, w, c);
    if Inhabits(component, w, co[c]) {
      WholeComponents(g, component, num, w, Bar(n, u));
    }
    forall d | d in Out(cg, c)
      ensures d in ComponentsIn(component, w)
    {
      OutIsView(cg, c, d);
      SuccessorIn(g, r, n, component, num, w, c, d);
    }
  }

  lemma SuccessorIn(g: Csr<int>, r: Csr<int>, n: nat, component: seq<nat>, num: nat, w: set<nat>, c: nat, d: nat)
    requires SymmetricResidual(g, r, n) && ComponentIds(g, component, num) && Closed(g, w)
    requires Inhabits(component, w, c) && ComponentArc(g, component, c, d)
    ensures d in ComponentsIn(component, w)
  {
    var x: nat, y: nat :| x < |component| && y < |component| && component[x] == c && component[y] == d && IsArc(g, x, y);
    WholeComponents(g, component, num, w, x);
    ClosedArc(g, w, x, y);
    TerminalsAlone(g, r, n, component, num, y);
  }

  /** `co` lists the complementary components. */
  ghost predicate IsCoTable(component: seq<nat>, n: nat, num: nat, co: seq<nat>) {
    && |component| == 2 * n + 2 && |co| == num
    && forall c: nat | c < num :: c in component && co[c] == Co(component, n, c)
  }

  /** What the worklist ends with contains every such set that contains it. */
  lemma NothingLeftOut(g: Csr<int>, r: Csr<int>, n: nat, component: seq<nat>, num: nat, cg: Csr<int>, co: seq<nat>, f: set<nat>, w: set<nat>)
    requires Condensed(g, r, n, component, num, cg) && IsCoTable(component, n, num, co) && ClosedHalf(g, n, w)
    requires Exhausted(cg, co, component[0], component[n + 1], f) && f <= ComponentsIn(component, w)
    ensures ComponentsIn(component, w) == f
  {
    var h := ComponentsIn(component, w);
    if !(h <= f) {
      var c: nat :| c in h && c !in f;
      HalfComponents(g, r, n, component, num, cg, co, w, c);
      var u: nat :| u < |component| && component[u] == c;
      var last := LastComponent(g, component, num, cg, h - f, u);
      HalfComponents(g, r, n, component, num, cg, co, w, last);
      LastIsDecided(cg, co, f, h, last);
    }
  }

  lemma LastIsDecided(cg: Csr<int>, co: seq<nat>, f: set<nat>, h: set<nat>, last: nat)
    requires cg.Valid() && last < |co| && Out(cg, last) <= h && Out(cg, last) !! h - f
    requires forall d | d in Out(cg, last) :: d < |co|
    ensures Out(cg, last) <= DecidedSet(co, f)
  {
    forall d | d in Out(cg, last)
      ensures d in DecidedSet(co, f)
    {
      assert d !in h - f;
    }
  }

  // ---------------------------------------------------------------- back to literals

  /** The fixed literals are a maximal complement-free minimum cut. */
  lemma FixedIsMaximal(p: Posiform, a: Csr<int>, flow: seq<int>, r: Csr<int>, g: Csr<int>, component: seq<nat>, num: nat,
                       cg: Csr<int>, co: seq<nat>, f: set<nat>, t: set<int>)
    requires Context(p, a, flow, r, g) && Condensed(g, r, p.numVars, component, num, cg) && IsCoTable(component, p.numVars, num, co)
    requires Exhausted(cg, co, component[0], component[p.numVars + 1], f)
    requires forall c | c in f :: c < num && Free(co, component[0], component[p.numVars + 1], c)
    requires MinimumCut(p, t) && ComplementFree(t) && FixVariables.LiteralsOf(component, p.numVars, f) <= t
    ensures t == {0} + FixVariables.LiteralsOf(component, p.numVars, f)
  {
    var n, w := p.numVars, VertexSet(SourceFirst, p.numVars, t);
    MinimumCutIsHalf(p, a, flow, r, g, t);
    FixedWithin(g, component, n, num, co, f, t);
    NothingLeftOut(g, r, n, component, num, cg, co, f, w);
    SameLiterals(g, r, component, n, num, f, t);
  }

  lemma SameLiterals(g: Csr<int>, r: Csr<int>, component: seq<nat>, n: nat, num: nat, f: set<nat>, t: set<int>)
    requires SymmetricResidual(g, r, n) && ComponentIds(g, component, num) && IsCut(n, t)
    requires f == ComponentsIn(component, VertexSet(SourceFirst, n, t)) && FixVariables.LiteralsOf(component, n, f) <= t
    ensures t == {0} + FixVariables.LiteralsOf(component, n, f)
  {
    forall c | c in t
      ensures c == 0 || c in FixVariables.LiteralsOf(component, n, f)
    {
      if c != 0 {
        LiteralOfHalf(g, r, component, n, num, VertexSet(SourceFirst, n, t), t, c);
      }
    }
  }

  lemma FixedWithin(g: Csr<int>, component: seq<nat>, n: nat, num: nat, co: seq<nat>, f: set<nat>, t: set<int>)
    requires IsCoTable(component, n, num, co) && IsCut(n, t) && FixVariables.LiteralsOf(component, n, f) <= t
    requires forall c | c in f :: c < num && Free(co, component[0], component[n + 1], c)
    ensures f <= ComponentsIn(component, VertexSet(SourceFirst, n, t))
  {
    var w := VertexSet(SourceFirst, n, t);
    forall c | c in f
      ensures c in ComponentsIn(component, w)
    {
      assert c in component;
      var v: nat :| v < |component| && component[v] == c;
      var code: int := if v <= n then v else 0 - (v - (n + 1));
      assert v != 0 && v != n + 1;
      assert code in FixVariables.LiteralsOf(component, n, f);
      assert Vertex(SourceFirst, n, code) == v && v in w;
    }
  }

  lemma LiteralOfHalf(g: Csr<int>, r: Csr<int>, component: seq<nat>, n: nat, num: nat, w: set<nat>, t: set<int>, c: int)
    requires SymmetricResidual(g, r, n) && ComponentIds(g, component, num)
    requires IsCut(n, t) && w == VertexSet(SourceFirst, n, t) && c in t && c != 0
    ensures c in FixVariables.LiteralsOf(component, n, ComponentsIn(component, w))
  {
    var v := Vertex(SourceFirst, n, c);
    VertexFacts(SourceFirst, n, c);
    assert v in w && v != 0;
    TerminalsAlone(g, r, n, component, num, v);
    assert Inhabits(component, w, component[v]);
  }
}
