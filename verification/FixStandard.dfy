/** Method 2 ("standard"): a variable is fixed when breadth-first search reaches one of its literals from the source. */
module FixStandard {
  import opened CompressedMatrices
  import opened Qubo
  import opened Flows
  import opened Graphs
  import opened Queues
  import opened ImplicationNetwork
  import opened RoofDuality
  import opened MinimumCuts
  import opened Residuals
  import opened Fixings

  ghost function Marked(visited: seq<int>): (s: set<nat>)
    ensures forall v: nat :: v in s <==> v < |visited| && visited[v] > 0
  {
    set v: nat | v in UpTo(|visited|) && visited[v] > 0
  }

  method BfsForMethod2(g: Csr<int>, s: nat) returns (visited: seq<int>)
    requires g.Valid() && g.numRows == g.numCols && s < g.numRows
    ensures |visited| == g.numRows && forall v: nat | v < |visited| :: visited[v] == 1 || visited[v] == -1
    ensures forall v: nat :: v < g.numRows && visited[v] == 1 <==> Reaches(g, s, v)
  {
    var q: seq<nat> := [s];
    visited := seq(g.numRows, _ => -1);
    visited := visited[s := 1];
    ghost var todo := UpTo(g.numRows);
    while q != []
      invariant SearchState(g, s, visited, q, todo)
      invariant Explored(g, Marked(visited), todo, s)
      decreases todo
    {
      var curr := q[0];
      assert curr in q;
      PopFront(q);
      q := q[1..];
      todo := todo - {curr};
      visited, q := Expand(g, s, curr, visited, q, todo);
    }
    ExploredAll(g, Marked(visited), todo, s);
  }

  /** Marks and enqueues the unmarked successors of `curr`. */
  method Expand(g: Csr<int>, ghost s: nat, curr: nat, visited0: seq<int>, q0: seq<nat>, ghost todo: set<nat>)
    returns (visited: seq<int>, q: seq<nat>)
    requires SearchState(g, s, visited0, q0, todo) && curr < g.numRows && visited0[curr] == 1 && curr !in todo
    requires Explored(g, Marked(visited0), todo + {curr}, s)
    ensures SearchState(g, s, visited, q, todo) && Explored(g, Marked(visited), todo, s)
  {
    visited, q := visited0, q0;
    var start, end := g.rowOffsets[curr], g.rowOffsets[curr + 1];
    for j := start to end
      invariant SearchState(g, s, visited, q, todo) && visited[curr] == 1
      invariant Explored(g, Marked(visited), todo + {curr}, s)
      invariant forall k | start <= k < j && g.values[k] != 0 :: visited[g.colIndices[k]] == 1
      invariant end <= |g.values|
    {
      var c := g.colIndices[j];
      assert g.InRow(curr, j);
      if g.values[j] != 0 && visited[c] == -1 {
        MarkKeeps(g, s, curr, j, visited, q, todo);
        visited := visited[c := 1];
        q := q + [c];
      }
    }
  }

  /** Marking and enqueueing one more successor. */
  lemma MarkKeeps(g: Csr<int>, s: nat, curr: nat, j: nat, visited: seq<int>, q: seq<nat>, todo: set<nat>)
    requires SearchState(g, s, visited, q, todo) && Explored(g, Marked(visited), todo + {curr}, s)
    requires g.InRow(curr, j) && j < |g.values| && g.values[j] != 0 && visited[curr] == 1 && visited[g.colIndices[j]] == -1
    ensures var (c, after) := (g.colIndices[j], visited[g.colIndices[j] := 1]);
            SearchState(g, s, after, q + [c], todo) && Explored(g, Marked(after), todo + {curr}, s)
  {
    ReachesStep(g, s, curr, j);
    PushBack(q, g.colIndices[j]);
  }

  /** The queue holds exactly the marked vertices that are still to be expanded. */
  ghost predicate SearchState(g: Csr<int>, s: nat, visited: seq<int>, q: seq<nat>, todo: set<nat>) {
    && g.Valid() && g.numRows == g.numCols == |visited|
    && (forall v: nat | v < |visited| :: visited[v] == 1 || visited[v] == -1)
    && (forall v | v in todo :: v < |visited|)
    && (forall v: nat | v < |visited| && visited[v] == -1 :: v in todo)
    && Distinct(q)
    && (forall v: nat :: v in q <==> v in todo && visited[v] == 1)
  }

  method ApplyImplication(a: Csr<int>, n: nat, flow: seq<int>, ghost p: Posiform) returns (fixed: seq<Fixing>)
    requires n == p.numVars && a.numRows == a.numCols == 2 * n + 2
    requires Solved(SourceMiddle, p, a, flow)
    ensures LeastMinimumCut(p, Fixed(fixed)) && Distinct(fixed)
    ensures forall f | f in fixed :: 1 <= f.0 <= n && (f.1 == 0 || f.1 == 1)
  {
    ArcsAre(a);
    var resid := ResidualForMethod2(a, n, flow);
    var forced := BfsForMethod2(resid, n);
    fixed := CollectForced(n, forced);
    ReachableIsLeast(p, a, flow, resid, Marked(forced));
  }

  method CollectForced(n: nat, forced: seq<int>) returns (fixed: seq<Fixing>)
    requires |forced| == 2 * n + 2 && forced[n] > 0
    ensures Fixed(fixed) == Codes(SourceMiddle, n, Marked(forced)) && Distinct(fixed)
    ensures forall f | f in fixed :: 1 <= f.0 <= n && (f.1 == 0 || f.1 == 1)
  {
    fixed := [];
    for i := 0 to |forced|
      invariant forall f | f in fixed :: 1 <= f.0 <= n && (f.1 == 0 || f.1 == 1)
      invariant Fixed(fixed) == CodesBelow(n, Marked(forced), i) && Distinct(fixed)
    {
      ghost var before := fixed;
      if forced[i] > 0 {
        if i < n {
          fixed := fixed + [(i + 1, 1)];
        } else if n + 1 <= i <= 2 * n {
          fixed := fixed + [(i - n, 0)];
        }
      }
      FixedStep(n, before, fixed, Marked(forced), i);
    }
    CodesBelowAll(n, Marked(forced));
  }

  lemma CodesBelowAll(n: nat, w: set<nat>)
    requires n in w
    ensures CodesBelow(n, w, 2 * n + 2) == Codes(SourceMiddle, n, w)
  {
    assert Vertex(SourceMiddle, n, 0) == n;
    forall c: int | Abs(c) <= n
      ensures c in CodesBelow(n, w, 2 * n + 2) <==> c in Codes(SourceMiddle, n, w)
    {
      VertexFacts(SourceMiddle, n, c);
    }
  }

  lemma ArcsAre(a: Csr<int>)
    requires a.Valid()
    ensures |Arcs(a)| == |a.values| && forall k | 0 <= k < |a.values| :: Arcs(a)[k].cap == a.values[k]
  {
  }

  /** The codes of the marked vertices below `i`, with the constant true. */
  ghost function CodesBelow(n: nat, w: set<nat>, i: nat): set<int> {
    {0} + set c | 0 - n <= c <= n && IsLiteral(n, c) && Vertex(SourceMiddle, n, c) < i && Vertex(SourceMiddle, n, c) in w
  }

  lemma FixedStep(n: nat, before: seq<Fixing>, after: seq<Fixing>, w: set<nat>, i: nat)
    requires Fixed(before) == CodesBelow(n, w, i)
    requires after == before +
               if i in w && i < n then [(i + 1, 1)] else if i in w && n + 1 <= i <= 2 * n then [(i - n, 0)] else []
    ensures Fixed(after) == CodesBelow(n, w, i + 1)
    ensures Distinct(before) ==> Distinct(after)
  {
    if |after| == |before| {
      assert after == before;
      assert forall c: int | IsLiteral(n, c) && Vertex(SourceMiddle, n, c) == i :: i !in w;
    } else {
      var f := after[|before|];
      var code := Code(f);
      assert Vertex(SourceMiddle, n, code) == i;
      FixedAppend(before, f);
      assert code != 0 && (f in before ==> code in Fixed(before));
      forall c: int | IsLiteral(n, c) && Vertex(SourceMiddle, n, c) == i
        ensures c == code
      {
        VertexInjective(SourceMiddle, n, c, code);
      }
    }
  }

  /** What the search reaches is the least minimum cut, whatever maximum flow was found. */
  lemma ReachableIsLeast(p: Posiform, a: Csr<int>, flow: seq<int>, resid: Csr<int>, w: set<nat>)
    requires Solved(SourceMiddle, p, a, flow)
    requires ClearedResidual(resid, a, flow, Source(SourceMiddle, p.numVars), Sink(SourceMiddle, p.numVars))
    requires forall v :: v in w <==> Reaches(resid, Source(SourceMiddle, p.numVars), v)
    ensures LeastMinimumCut(p, Codes(SourceMiddle, p.numVars, w))
  {
    var l, n := SourceMiddle, p.numVars;
    var s, t := Source(l, n), Sink(l, n);
    var c: set<nat> :| s in c && t !in c && ResidualClosed(Arcs(a), flow, c);
    ClosedIffResidualClosed(resid, a, flow, s, t, c);
    assert Reaches(resid, s, s);
    assert Closed(resid, w) by {
      ReachableIsClosed(resid, s, w);
    }
    ClosedIffResidualClosed(resid, a, flow, s, t, w);
    ClosedIsMinimumCut(l, p, a, flow, w);
    forall m: set<int> | MinimumCut(p, m)
      ensures Codes(l, n, w) <= m
    {
      var v := VertexSet(l, n, m);
      MinimumCutIsClosed(l, p, a, flow, m);
      CodesOfVertexSet(l, n, m);
      ClosedIffResidualClosed(resid, a, flow, s, t, v);
      assert w <= v;
    }
  }

  lemma ReachableIsClosed(g: Csr<int>, s: nat, w: set<nat>)
    requires g.Valid() && forall v :: v in w <==> Reaches(g, s, v)
    ensures Closed(g, w)
  {
    forall i: nat, k: nat | g.InRow(i, k) && i in w && k < |g.values| && g.values[k] != 0
      ensures g.colIndices[k] in w
    {
      ReachesStep(g, s, i, k);
    }
  }
}
