/** Dijkstra's algorithm with lazy deletion: outdated queue entries are skipped when they come to the front. */
module ShortestPaths {
  import opened Results
  import opened CompressedMatrices

  const MAX_DISTANCE := 0x7fff_ffff_ffff_ffff

  /** Every stored entry is an arc, and weights are not negative. */
  ghost predicate Weighted(g: Csr<int>) {
    g.Valid() && g.numRows == g.numCols && forall k | 0 <= k < |g.values| :: g.values[k] >= 0
  }

  ghost predicate Arc(g: Csr<int>, u: nat, v: nat)
    requires g.Valid()
  {
    (u, v) in g.View()
  }

  ghost function Weight(g: Csr<int>, u: nat, v: nat): (w: int)
    requires Weighted(g) && Arc(g, u, v)
    ensures w >= 0
  {
    var k := g.IndexOf((u, v));
    g.View()[(u, v)]
  }

  ghost predicate Walk(g: Csr<int>, p: seq<nat>)
    requires g.Valid()
  {
    p != [] && forall i, j | 0 <= i && j == i + 1 && j < |p| :: Arc(g, p[i], p[j])
  }

  ghost function Length(g: Csr<int>, p: seq<nat>): (l: int)
    requires Weighted(g) && Walk(g, p)
    ensures l >= 0
  {
    if |p| == 1 then 0 else
      var i := |p| - 2;
      assert Walk(g, p[..|p| - 1]);
      Length(g, p[..|p| - 1]) + Weight(g, p[i], p[i + 1])
  }

  // ---------------------------------------------------------------- the state of the search

  datatype GraphNode = GraphNode(distance: int, at: nat)

  predicate NotAfter(a: GraphNode, b: GraphNode) {
    a.distance < b.distance || (a.distance == b.distance && a.at <= b.at)
  }

  /** The entry a priority queue gives out first. */
  method PopTop(pq0: seq<GraphNode>) returns (top: GraphNode, pq: seq<GraphNode>)
    requires pq0 != []
    ensures (forall e :: e in pq0 <==> e in pq || e == top) && |pq| == |pq0| - 1
    ensures forall e | e in pq0 :: NotAfter(top, e)
  {
    var best := 0;
    for k := 1 to |pq0|
      invariant 0 <= best < |pq0| && forall l | 0 <= l < k :: NotAfter(pq0[best], pq0[l])
    {
      if !NotAfter(pq0[best], pq0[k]) {
        best := k;
      }
    }
    top := pq0[best];
    pq := pq0[..best] + pq0[best + 1..];
    assert pq0 == pq0[..best] + [top] + pq0[best + 1..];
  }

  ghost function Count(visited: seq<bool>): (n: nat)
    ensures n <= |visited|
    ensures n == |visited| ==> forall v | 0 <= v < |visited| :: visited[v]
  {
    if visited == [] then 0 else
      var l := |visited| - 1;
      Count(visited[..l]) + if visited[l] then 1 else 0
  }

  lemma {:induction false} CountMarked(visited: seq<bool>, v: nat)
    requires v < |visited| && !visited[v]
    ensures Count(visited[v := true]) == Count(visited) + 1
  {
    var l := |visited| - 1;
    if v < l {
      CountMarked(visited[..l], v);
      assert visited[v := true][..l] == visited[..l][v := true];
    } else {
      assert visited[v := true][..l] == visited[..l];
    }
  }

  /** Distances found so far. */
  ghost predicate Bounded(g: Csr<int>, source: nat, dist: seq<int>, visited: seq<bool>, pq: seq<GraphNode>)
  {
    && |dist| == |visited| == g.numRows && source < g.numRows && dist[source] == 0
    && (forall v | 0 <= v < |dist| :: 0 <= dist[v] <= MAX_DISTANCE && (visited[v] ==> dist[v] < MAX_DISTANCE))
    && (forall e | e in pq :: e.at < |dist| && dist[e.at] <= e.distance < MAX_DISTANCE)
    && (forall v: nat | v < |dist| && !visited[v] && dist[v] < MAX_DISTANCE :: GraphNode(dist[v], v) in pq)
  }

  /** Visited vertices are no farther than anything still queued. */
  ghost predicate Settled(dist: seq<int>, visited: seq<bool>, pq: seq<GraphNode>)
    requires |visited| == |dist|
  {
    forall v, e | 0 <= v < |dist| && visited[v] && e in pq :: dist[v] <= e.distance
  }

  /** No stored entry of row `u` before flat index `upto` offers a shorter way. */
  ghost predicate Relaxed(g: Csr<int>, dist: seq<int>, u: nat, upto: nat)
    requires Weighted(g) && |dist| == g.numRows
  {
    forall k: nat | g.InRow(u, k) && k < upto && k < |g.values| :: dist[g.colIndices[k]] <= dist[u] + g.values[k]
  }

  /** A found vertex other than the source has a visited parent one arc before it, visited earlier than it. */
  ghost predicate Parented(g: Csr<int>, source: nat, dist: seq<int>, parents: seq<int>, visited: seq<bool>, rank: seq<nat>, v: nat)
    requires Weighted(g) && |dist| == |parents| == |visited| == |rank| == g.numRows && v < g.numRows
  {
    if v == source || dist[v] == MAX_DISTANCE then parents[v] == -1 else
      var u := parents[v];
      && 0 <= u < |dist| && visited[u] && Arc(g, u, v) && dist[v] == dist[u] + Weight(g, u, v)
      && (visited[v] ==> rank[u] < rank[v])
  }

  ghost predicate AllParented(g: Csr<int>, source: nat, dist: seq<int>, parents: seq<int>, visited: seq<bool>, rank: seq<nat>, count: nat)
    requires Weighted(g)
  {
    && |dist| == |parents| == |visited| == |rank| == g.numRows
    && (forall v: nat | v < |dist| :: Parented(g, source, dist, parents, visited, rank, v))
    && (forall v | 0 <= v < |dist| && visited[v] :: rank[v] < count)
  }

  /** One improvement. */
  method Shorten(g: Csr<int>, source: nat, at: nat, j: nat, dist0: seq<int>, parents0: seq<int>, visited: seq<bool>, ghost rank: seq<nat>, ghost count: nat,
                 pq0: seq<GraphNode>)
    returns (dist: seq<int>, parents: seq<int>, pq: seq<GraphNode>)
    requires Weighted(g) && Bounded(g, source, dist0, visited, pq0) && Settled(dist0, visited, pq0)
    requires g.InRow(at, j) && j < |g.values| && visited[at] && visited[source] && forall v | 0 <= v < |dist0| && visited[v] :: dist0[v] <= dist0[at]
    requires AllParented(g, source, dist0, parents0, visited, rank, count)
    requires at != g.colIndices[j] && !visited[g.colIndices[j]] && dist0[at] + g.values[j] < dist0[g.colIndices[j]]
    ensures dist == dist0[g.colIndices[j] := dist0[at] + g.values[j]]
    ensures Bounded(g, source, dist, visited, pq) && Settled(dist, visited, pq)
    ensures AllParented(g, source, dist, parents, visited, rank, count)
  {
    var c := g.colIndices[j];
    dist := dist0[c := dist0[at] + g.values[j]];
    parents := parents0[c := at];
    var tmp := GraphNode(dist[c], c);
    pq := pq0 + [tmp];
    ArcAtIndex(g, at, j);
    forall v: nat | v < |dist|
      ensures Parented(g, source, dist, parents, visited, rank, v)
    {
      assert Parented(g, source, dist0, parents0, visited, rank, v);
    }
  }

  /** Tries the arcs that leave `at`. */
  method RelaxRow(g: Csr<int>, source: nat, at: nat, dist0: seq<int>, parents0: seq<int>, visited: seq<bool>, ghost rank: seq<nat>, ghost count: nat,
                  pq0: seq<GraphNode>)
    returns (dist: seq<int>, parents: seq<int>, pq: seq<GraphNode>)
    requires Weighted(g) && Bounded(g, source, dist0, visited, pq0) && Settled(dist0, visited, pq0)
    requires at < g.numRows && visited[at] && visited[source] && forall v | 0 <= v < |dist0| && visited[v] :: dist0[v] <= dist0[at]
    requires AllParented(g, source, dist0, parents0, visited, rank, count)
    ensures Bounded(g, source, dist, visited, pq) && Settled(dist, visited, pq)
    ensures AllParented(g, source, dist, parents, visited, rank, count)
    ensures Improved(dist0, dist, visited) && Relaxed(g, dist, at, |g.values|)
  {
    dist, parents, pq := dist0, parents0, pq0;
    var start, end := g.rowOffsets[at], g.rowOffsets[at + 1];
    assert end <= g.rowOffsets[g.numRows];
    for j := start to end
      invariant Bounded(g, source, dist, visited, pq) && Settled(dist, visited, pq)
      invariant Improved(dist0, dist, visited)
      invariant AllParented(g, source, dist, parents, visited, rank, count)
      invariant Relaxed(g, dist, at, j)
    {
      dist, parents, pq := RelaxArc(g, source, at, j, dist, parents, visited, rank, count, pq);
    }
  }

  /** Distances only decrease, those of visited vertices not at all. */
  ghost predicate Improved(before: seq<int>, after: seq<int>, visited: seq<bool>) {
    |after| == |before| == |visited| && forall v | 0 <= v < |before| :: after[v] <= before[v] && (visited[v] ==> after[v] == before[v])
  }

  lemma StaysRelaxed(g: Csr<int>, before: seq<int>, after: seq<int>, visited: seq<bool>, u: nat, upto: nat)
    requires Weighted(g) && |before| == g.numRows && Improved(before, after, visited) && u < g.numRows && visited[u] && Relaxed(g, before, u, upto)
    ensures Relaxed(g, after, u, upto)
  {
  }

  method RelaxArc(g: Csr<int>, source: nat, at: nat, j: nat, dist0: seq<int>, parents0: seq<int>, visited: seq<bool>, ghost rank: seq<nat>, ghost count: nat,
                  pq0: seq<GraphNode>)
    returns (dist: seq<int>, parents: seq<int>, pq: seq<GraphNode>)
    requires Weighted(g) && Bounded(g, source, dist0, visited, pq0) && Settled(dist0, visited, pq0)
    requires g.InRow(at, j) && j < |g.values| && visited[at] && visited[source] && forall v | 0 <= v < |dist0| && visited[v] :: dist0[v] <= dist0[at]
    requires AllParented(g, source, dist0, parents0, visited, rank, count) && Relaxed(g, dist0, at, j)
    ensures Bounded(g, source, dist, visited, pq) && Settled(dist, visited, pq)
    ensures AllParented(g, source, dist, parents, visited, rank, count)
    ensures Improved(dist0, dist, visited) && Relaxed(g, dist, at, j + 1)
  {
    dist, parents, pq := dist0, parents0, pq0;
    var c := g.colIndices[j];
    if at != c && !visited[c] && dist[at] + g.values[j] < dist[c] {
      dist, parents, pq := Shorten(g, source, at, j, dist, parents, visited, rank, count, pq);
      StaysRelaxed(g, dist0, dist, visited, at, j);
    }
  }

  lemma ArcAtIndex(g: Csr<int>, u: nat, k: nat)
    requires Weighted(g) && g.InRow(u, k) && k < |g.values|
    ensures Arc(g, u, g.colIndices[k]) && Weight(g, u, g.colIndices[k]) == g.values[k]
  {
    g.RowIs(u, k);
    g.ViewAt(k);
  }

  /** Distances are shortest lengths up to the representable maximum, and parents lead back along shortest walks. */
  ghost predicate ShortestTree(g: Csr<int>, source: nat, dist: seq<int>, parents: seq<int>, rank: seq<nat>)
    requires Weighted(g)
  {
    && |dist| == |parents| == |rank| == g.numRows && source < g.numRows && dist[source] == 0
    && (forall v | 0 <= v < |dist| :: 0 <= dist[v] <= MAX_DISTANCE)
    && (forall u: nat | u < g.numRows :: Relaxed(g, dist, u, |g.values|))
    && (forall v: nat | v < |dist| :: LeadsBack(g, source, dist, parents, rank, v))
  }

  ghost predicate LeadsBack(g: Csr<int>, source: nat, dist: seq<int>, parents: seq<int>, rank: seq<nat>, v: nat)
    requires Weighted(g) && |dist| == |parents| == |rank| == g.numRows && v < g.numRows
  {
    if v == source || dist[v] == MAX_DISTANCE then parents[v] == -1 else
      var u := parents[v];
      0 <= u < |dist| && Arc(g, u, v) && dist[v] == dist[u] + Weight(g, u, v) && rank[u] < rank[v]
  }

  /** The vertex `at` is marked with the next rank. */
  lemma StillParented(g: Csr<int>, source: nat, dist: seq<int>, parents: seq<int>, visited: seq<bool>, rank: seq<nat>, count: nat, at: nat)
    requires Weighted(g) && AllParented(g, source, dist, parents, visited, rank, count) && at < g.numRows && !visited[at]
    ensures AllParented(g, source, dist, parents, visited[at := true], rank[at := count], count + 1)
  {
    var visited', rank' := visited[at := true], rank[at := count];
    forall v: nat | v < |dist|
      ensures Parented(g, source, dist, parents, visited', rank', v)
    {
      assert Parented(g, source, dist, parents, visited, rank, v);
    }
  }

  /** Visits the vertex at the front of the queue; `pq0` is what is left of the queue `before`. */
  method Visit(g: Csr<int>, source: nat, curr: GraphNode, dist0: seq<int>, parents0: seq<int>, visited0: seq<bool>, ghost rank0: seq<nat>, ghost count: nat,
               pq0: seq<GraphNode>, ghost before: seq<GraphNode>)
    returns (dist: seq<int>, parents: seq<int>, visited: seq<bool>, ghost rank: seq<nat>, pq: seq<GraphNode>)
    requires Weighted(g) && Bounded(g, source, dist0, visited0, before) && Settled(dist0, visited0, before)
    requires (forall e :: e in before <==> e in pq0 || e == curr) && forall e | e in before :: NotAfter(curr, e)
    requires curr.at < g.numRows && !visited0[curr.at] && (visited0[source] || curr.at == source)
    requires AllParented(g, source, dist0, parents0, visited0, rank0, count)
    requires forall u: nat | u < g.numRows && visited0[u] :: Relaxed(g, dist0, u, |g.values|)
    ensures visited == visited0[curr.at := true]
    ensures Bounded(g, source, dist, visited, pq) && Settled(dist, visited, pq)
    ensures AllParented(g, source, dist, parents, visited, rank, count + 1)
    ensures forall u: nat | u < g.numRows && visited[u] :: Relaxed(g, dist, u, |g.values|)
  {
    var at := curr.at;
    assert curr in before;
    assert GraphNode(dist0[at], at) in before;
    assert curr.distance == dist0[at];
    visited := visited0[at := true];
    rank := rank0[at := count];
    StillParented(g, source, dist0, parents0, visited0, rank0, count, at);
    dist, parents, pq := RelaxRow(g, source, at, dist0, parents0, visited, rank, count + 1, pq0);
    forall u: nat | u < g.numRows && visited[u]
      ensures Relaxed(g, dist, u, |g.values|)
    {
      if u != at {
        StaysRelaxed(g, dist0, dist, visited, u, |g.values|);
      }
    }
  }

  /** Between two rounds. */
  ghost predicate Searching(g: Csr<int>, source: nat, dist: seq<int>, parents: seq<int>, visited: seq<bool>, rank: seq<nat>, count: nat, pq: seq<GraphNode>)
    requires Weighted(g)
  {
    && Bounded(g, source, dist, visited, pq) && Settled(dist, visited, pq)
    && (visited[source] || (pq == [GraphNode(0, source)] && count == 0))
    && AllParented(g, source, dist, parents, visited, rank, count)
    && (forall u: nat | u < g.numRows && visited[u] :: Relaxed(g, dist, u, |g.values|))
    && count == Count(visited)
  }

  lemma SearchEnds(g: Csr<int>, source: nat, dist: seq<int>, parents: seq<int>, visited: seq<bool>, rank: seq<nat>, count: nat, pq: seq<GraphNode>)
    requires Weighted(g) && Searching(g, source, dist, parents, visited, rank, count, pq) && (pq == [] || count == g.numRows)
    ensures ShortestTree(g, source, dist, parents, rank)
  {
    forall v: nat | v < |dist|
      ensures Relaxed(g, dist, v, |g.values|) && LeadsBack(g, source, dist, parents, rank, v)
    {
      assert Parented(g, source, dist, parents, visited, rank, v);
      assert visited[v] || dist[v] == MAX_DISTANCE;
    }
  }

  lemma SearchStarts(g: Csr<int>, source: nat, dist: seq<int>, parents: seq<int>, visited: seq<bool>, rank: seq<nat>)
    requires Weighted(g) && source < g.numRows && |dist| == |parents| == |visited| == |rank| == g.numRows
    requires forall v | 0 <= v < |dist| :: parents[v] == -1 && !visited[v] && dist[v] == if v == source then 0 else MAX_DISTANCE
    ensures Searching(g, source, dist, parents, visited, rank, 0, [GraphNode(0, source)])
  {
    NothingVisited(visited);
  }

  /** A round that only drops an outdated entry. */
  lemma Skipped(g: Csr<int>, source: nat, dist: seq<int>, parents: seq<int>, visited: seq<bool>, rank: seq<nat>, count: nat, before: seq<GraphNode>,
                curr: GraphNode, pq: seq<GraphNode>)
    requires Weighted(g) && Searching(g, source, dist, parents, visited, rank, count, before)
    requires (forall e :: e in before <==> e in pq || e == curr) && visited[curr.at]
    ensures Searching(g, source, dist, parents, visited, rank, count, pq)
  {
    assert curr in before;
  }

  method Round(g: Csr<int>, source: nat, dist0: seq<int>, parents0: seq<int>, visited0: seq<bool>, ghost rank0: seq<nat>, count0: nat, pq0: seq<GraphNode>)
    returns (dist: seq<int>, parents: seq<int>, visited: seq<bool>, ghost rank: seq<nat>, count: nat, pq: seq<GraphNode>)
    requires Weighted(g) && Searching(g, source, dist0, parents0, visited0, rank0, count0, pq0) && pq0 != [] && count0 != g.numRows
    ensures Searching(g, source, dist, parents, visited, rank, count, pq)
    ensures count == count0 + 1 || (count == count0 && |pq| < |pq0|)
  {
    var curr;
    curr, pq := PopTop(pq0);
    assert curr in pq0;
    if !visited0[curr.at] {
      CountMarked(visited0, curr.at);
      dist, parents, visited, rank, pq := Visit(g, source, curr, dist0, parents0, visited0, rank0, count0, pq, pq0);
      count := count0 + 1;
    } else {
      dist, parents, visited, rank, count := dist0, parents0, visited0, rank0, count0;
      Skipped(g, source, dist, parents, visited, rank, count, pq0, curr, pq);
    }
  }

  method Dijkstra(g: Csr<int>, source: nat, cancelled: bool)
    returns (r: Result<(seq<int>, seq<int>)>, ghost rank: seq<nat>)
    requires Weighted(g) && source < g.numRows
    ensures r.Failure? <==> cancelled
    ensures r.Success? ==> ShortestTree(g, source, r.value.0, r.value.1, rank)
  {
    rank := [];
    if cancelled {
      return Failure("problem cancelled"), rank;
    }
    var n := g.numRows;
    var dist := seq(n, _ => MAX_DISTANCE);
    var parents := seq(n, _ => -1);
    var visited := seq(n, _ => false);
    rank := seq(n, _ => 0);
    dist := dist[source := 0];
    var pq := [GraphNode(0, source)];
    var numVisited := 0;
    SearchStarts(g, source, dist, parents, visited, rank);
    while pq != [] && numVisited != n
      invariant Searching(g, source, dist, parents, visited, rank, numVisited, pq)
      decreases n - numVisited, |pq|
    {
      dist, parents, visited, rank, numVisited, pq := Round(g, source, dist, parents, visited, rank, numVisited, pq);
    }
    SearchEnds(g, source, dist, parents, visited, rank, numVisited, pq);
    r := Success((dist, parents));
  }

  lemma {:induction false} NothingVisited(visited: seq<bool>)
    requires forall v | 0 <= v < |visited| :: !visited[v]
    ensures Count(visited) == 0
  {
    if visited != [] {
      NothingVisited(visited[..|visited| - 1]);
    }
  }

  // ---------------------------------------------------------------- what the tree means

  /** No walk is shorter than the distance. */
  lemma {:induction false} DistanceIsLowerBound(g: Csr<int>, source: nat, dist: seq<int>, parents: seq<int>, rank: seq<nat>, p: seq<nat>)
    requires Weighted(g) && ShortestTree(g, source, dist, parents, rank) && Walk(g, p) && p[0] == source
    ensures p[|p| - 1] < g.numRows && dist[p[|p| - 1]] <= Length(g, p)
    decreases |p|
  {
    if |p| > 1 {
      var q, i := p[..|p| - 1], |p| - 2;
      assert Walk(g, q);
      DistanceIsLowerBound(g, source, dist, parents, rank, q);
      var k := g.IndexOf((p[i], p[i + 1]));
      assert g.InRow(p[i], k);
      assert Relaxed(g, dist, p[i], |g.values|);
    }
  }

  /** Following the parents back from a vertex. */
  ghost function Trail(g: Csr<int>, source: nat, dist: seq<int>, parents: seq<int>, rank: seq<nat>, v: nat): (p: seq<nat>)
    requires Weighted(g) && ShortestTree(g, source, dist, parents, rank) && v < g.numRows && dist[v] < MAX_DISTANCE
    ensures p != [] && p[|p| - 1] == v
    decreases if v == source then 0 else 1 + rank[v]
  {
    if v == source then [v] else
      assert LeadsBack(g, source, dist, parents, rank, v);
      Trail(g, source, dist, parents, rank, parents[v]) + [v]
  }

  /** It ends at the source, along a walk as long as the distance. */
  lemma {:induction false} TrailIsShortest(g: Csr<int>, source: nat, dist: seq<int>, parents: seq<int>, rank: seq<nat>, v: nat)
    requires Weighted(g) && ShortestTree(g, source, dist, parents, rank) && v < g.numRows && dist[v] < MAX_DISTANCE
    ensures var p := Trail(g, source, dist, parents, rank, v); Walk(g, p) && p[0] == source && Length(g, p) == dist[v]
    decreases if v == source then 0 else 1 + rank[v]
  {
    if v != source {
      assert LeadsBack(g, source, dist, parents, rank, v);
      var u := parents[v];
      TrailIsShortest(g, source, dist, parents, rank, u);
      WalkExtends(g, Trail(g, source, dist, parents, rank, u), v);
    }
  }

  lemma WalkExtends(g: Csr<int>, q: seq<nat>, v: nat)
    requires Weighted(g) && Walk(g, q) && Arc(g, q[|q| - 1], v)
    ensures Walk(g, q + [v]) && Length(g, q + [v]) == Length(g, q) + Weight(g, q[|q| - 1], v)
  {
    var p := q + [v];
    assert p[..|p| - 1] == q;
    assert forall i, j | 0 <= i && j == i + 1 && j < |q| :: Arc(g, p[i], p[j]);
  }

  /** The distance is the maximum exactly when every walk from the source is at least that long; otherwise it is
  the length of a shortest walk. */
  lemma DistancesAreExact(g: Csr<int>, source: nat, dist: seq<int>, parents: seq<int>, rank: seq<nat>, v: nat)
    requires Weighted(g) && ShortestTree(g, source, dist, parents, rank) && v < g.numRows
    ensures dist[v] == MAX_DISTANCE <==> forall p | Walk(g, p) && p[0] == source && p[|p| - 1] == v :: Length(g, p) >= MAX_DISTANCE
    ensures dist[v] < MAX_DISTANCE ==> exists p :: Walk(g, p) && p[0] == source && p[|p| - 1] == v && Length(g, p) == dist[v]
    ensures forall p | Walk(g, p) && p[0] == source && p[|p| - 1] == v :: dist[v] <= Length(g, p)
  {
    forall p | Walk(g, p) && p[0] == source && p[|p| - 1] == v
      ensures dist[v] <= Length(g, p)
    {
      DistanceIsLowerBound(g, source, dist, parents, rank, p);
    }
    if dist[v] < MAX_DISTANCE {
      TrailIsShortest(g, source, dist, parents, rank, v);
      var p := Trail(g, source, dist, parents, rank, v);
      assert Walk(g, p) && p[0] == source && p[|p| - 1] == v && Length(g, p) == dist[v];
    }
  }
}
