/** Undirected graphs from sparse matrices, and their connected components. */
module GraphComponents {
  import opened CompressedMatrices
  import opened Graphs
  import opened Queues

  // ---------------------------------------------------------------- connected components

  /** An undirected graph whose stored entries are all arcs. */
  ghost predicate Undirected(g: Csr<int>) {
    && g.Valid() && g.numRows == g.numCols
    && (forall k | 0 <= k < |g.values| :: g.values[k] != 0)
    && (forall u: nat, v: nat | IsArc(g, u, v) :: IsArc(g, v, u))
  }

  ghost function Visited(visited: seq<bool>): (s: set<nat>)
    ensures forall v: nat :: v in s <==> v < |visited| && visited[v]
  {
    set v: nat | v in UpTo(|visited|) && visited[v]
  }

  ghost function Members(s: seq<nat>): (r: set<nat>)
    ensures forall v: nat :: v in r <==> v in s
  {
    set v | v in s
  }

  /** The component grown so far: `queue` holds its vertices that are not expanded yet. */
  ghost predicate Growing(g: Csr<int>, i: nat, done: set<nat>, visited: seq<bool>, comp: seq<nat>, queue: seq<nat>)
    requires g.Valid()
  {
    && |visited| == g.numRows && Distinct(comp) && comp != [] && comp[0] == i
    && Visited(visited) == done + Members(comp) && done !! Members(comp)
    && (forall v | v in queue :: v in comp) && Distinct(queue)
    && Explored(g, Members(comp), Members(queue), i)
  }

  /** In an undirected graph nothing outside a closed set leads into it. */
  lemma NoArcIntoClosed(g: Csr<int>, done: set<nat>, u: nat, k: nat)
    requires Undirected(g) && Closed(g, done) && g.InRow(u, k) && u !in done
    ensures k < |g.values| && g.colIndices[k] !in done
  {
    g.RowIs(u, k);
    ArcAt(g, u, k);
    if g.colIndices[k] in done {
      ClosedArc(g, done, g.colIndices[k], u);
    }
  }

  /** As `Growing`, with `curr` taken out of the queue but not yet expanded. */
  ghost predicate Expanding(g: Csr<int>, i: nat, done: set<nat>, curr: nat, visited: seq<bool>, comp: seq<nat>, queue: seq<nat>)
    requires g.Valid()
  {
    && |visited| == g.numRows && Distinct(comp) && comp != [] && comp[0] == i && curr in comp
    && Visited(visited) == done + Members(comp) && done !! Members(comp)
    && (forall v | v in queue :: v in comp) && Distinct(queue) && curr !in queue
    && Explored(g, Members(comp), Members(queue) + {curr}, i)
  }

  /** Looks at one arc. */
  method ExpandArc(g: Csr<int>, ghost i: nat, ghost done: set<nat>, curr: nat, k: nat, visited0: seq<bool>, comp0: seq<nat>, queue0: seq<nat>)
    returns (visited: seq<bool>, comp: seq<nat>, queue: seq<nat>)
    requires Undirected(g) && Closed(g, done) && g.InRow(curr, k) && k < |g.values|
    requires Expanding(g, i, done, curr, visited0, comp0, queue0)
    ensures Expanding(g, i, done, curr, visited, comp, queue) && comp0 <= comp && g.colIndices[k] in comp
    ensures |comp| > |comp0| || (comp == comp0 && queue == queue0)
  {
    visited, comp, queue := visited0, comp0, queue0;
    var neighbour := g.colIndices[k];
    assert curr in Members(comp);
    NoArcIntoClosed(g, done, curr, k);
    if !visited[neighbour] {
      assert neighbour !in Visited(visited);
      ReachesStep(g, i, curr, k);
      PushBack(queue, neighbour);
      PushBack(comp, neighbour);
      visited, comp, queue := visited[neighbour := true], comp + [neighbour], queue + [neighbour];
      assert Visited(visited) == Visited(visited0) + {neighbour};
      assert Members(comp) == Members(comp0) + {neighbour} && Members(queue) == Members(queue0) + {neighbour};
    } else {
      assert neighbour in Visited(visited);
    }
  }

  /** Adds the unvisited neighbours of `curr`. */
  method ExpandComponent(g: Csr<int>, ghost i: nat, ghost done: set<nat>, curr: nat, visited0: seq<bool>, comp0: seq<nat>, queue0: seq<nat>)
    returns (visited: seq<bool>, comp: seq<nat>, queue: seq<nat>)
    requires Undirected(g) && Closed(g, done) && curr < g.numRows
    requires Expanding(g, i, done, curr, visited0, comp0, queue0)
    ensures Growing(g, i, done, visited, comp, queue)
    ensures |comp| > |comp0| || (comp == comp0 && queue == queue0)
  {
    visited, comp, queue := visited0, comp0, queue0;
    var start, end := g.rowOffsets[curr], g.rowOffsets[curr + 1];
    assert end <= g.rowOffsets[g.numRows];
    for k := start to end
      invariant Expanding(g, i, done, curr, visited, comp, queue)
      invariant forall l | start <= l < k :: g.colIndices[l] in comp
      invariant |comp| > |comp0| || (comp == comp0 && queue == queue0)
    {
      visited, comp, queue := ExpandArc(g, i, done, curr, k, visited, comp, queue);
    }
    RowExpanded(g, i, done, curr, visited, comp, queue);
  }

  lemma RowExpanded(g: Csr<int>, i: nat, done: set<nat>, curr: nat, visited: seq<bool>, comp: seq<nat>, queue: seq<nat>)
    requires Undirected(g) && Expanding(g, i, done, curr, visited, comp, queue) && curr < g.numRows
    requires g.rowOffsets[curr + 1] <= |g.values| && forall l | g.rowOffsets[curr] <= l < g.rowOffsets[curr + 1] :: g.colIndices[l] in comp
    ensures Growing(g, i, done, visited, comp, queue)
  {
    forall r: nat, k: nat | g.InRow(r, k) && r in Members(comp) && r !in Members(queue) && k < |g.values| && g.values[k] != 0
      ensures g.colIndices[k] in Members(comp)
    {
      if r != curr {
        assert r !in Members(queue) + {curr};
      }
    }
  }

  method GrowComponent(g: Csr<int>, i: nat, ghost done: set<nat>, visited0: seq<bool>) returns (visited: seq<bool>, comp: seq<nat>)
    requires Undirected(g) && Closed(g, done) && |visited0| == g.numRows && i < g.numRows && Visited(visited0) == done && i !in done
    ensures |visited| == g.numRows && Visited(visited) == done + Members(comp) && done !! Members(comp)
    ensures comp != [] && Distinct(comp) && comp[0] == i && Closed(g, done + Members(comp))
    ensures forall v: nat :: v in comp <==> Reaches(g, i, v)
  {
    comp := [i];
    var queue := [i];
    visited := visited0[i := true];
    assert Visited(visited) == done + Members(comp);
    while queue != []
      invariant Growing(g, i, done, visited, comp, queue)
      decreases g.numRows - |comp|, |queue|
    {
      var curr := queue[0];
      assert curr in queue && curr in comp;
      assert curr in Members(comp);
      PopFront(queue);
      ghost var all := Members(queue);
      ComponentSize(g, comp);
      queue := queue[1..];
      assert Members(queue) + {curr} == all;
      visited, comp, queue := ExpandComponent(g, i, done, curr, visited, comp, queue);
    }
    assert Members(queue) == {};
    ExploredAll(g, Members(comp), Members(queue), i);
    assert Closed(g, Members(comp));
  }

  lemma ComponentSize(g: Csr<int>, comp: seq<nat>)
    requires Distinct(comp) && forall v | v in comp :: v < g.numRows
    ensures |comp| <= g.numRows
  {
    DistinctBelow(comp, g.numRows);
  }

  /** Every vertex lies in one list, and each list is the connected component of its first vertex. */
  ghost predicate ComponentsOf(g: Csr<int>, components: seq<seq<nat>>)
    requires g.Valid()
  {
    && (forall c | 0 <= c < |components| :: components[c] != [] && Distinct(components[c]))
    && (forall c, v: nat | 0 <= c < |components| && v in components[c] :: v < g.numRows)
    && (forall v: nat | v < g.numRows :: Listed(components, v))
    && Separate(components)
    && (forall c, v: nat | 0 <= c < |components| :: v in components[c] <==> Reaches(g, components[c][0], v))
  }

  ghost predicate Listed(lists: seq<seq<nat>>, v: nat) {
    exists c :: 0 <= c < |lists| && v in lists[c]
  }

  ghost predicate Separate(lists: seq<seq<nat>>) {
    forall c, d | 0 <= c < d < |lists| :: Members(lists[c]) !! Members(lists[d])
  }

  method ConnectedComponents(g: Csr<int>) returns (components: seq<seq<nat>>)
    requires Undirected(g)
    ensures ComponentsOf(g, components)
  {
    components := [];
    var visited := seq(g.numRows, _ => false);
    ghost var done: set<nat> := {};
    for i := 0 to g.numRows
      invariant |visited| == g.numRows && Visited(visited) == done && Closed(g, done)
      invariant forall v: nat | v < i :: v in done
      invariant forall v: nat :: v in done <==> Listed(components, v)
      invariant forall c | 0 <= c < |components| :: components[c] != [] && Distinct(components[c])
      invariant forall c, v: nat | 0 <= c < |components| :: v in components[c] <==> Reaches(g, components[c][0], v)
      invariant Separate(components)
    {
      if !visited[i] {
        assert i !in Visited(visited);
        var comp;
        visited, comp := GrowComponent(g, i, done, visited);
        AppendComponent(done, components, comp);
        done := done + Members(comp);
        components := components + [comp];
      } else {
        assert i in Visited(visited);
      }
    }
  }

  lemma AppendComponent(done: set<nat>, components: seq<seq<nat>>, comp: seq<nat>)
    requires forall v: nat :: v in done <==> Listed(components, v)
    requires Separate(components) && done !! Members(comp)
    ensures Separate(components + [comp])
    ensures forall v: nat :: v in done + Members(comp) <==> Listed(components + [comp], v)
  {
    var all := components + [comp];
    forall c | 0 <= c < |components|
      ensures Members(all[c]) !! Members(comp)
    {
      assert forall v | v in Members(components[c]) :: v in done;
    }
    forall v: nat
      ensures v in done + Members(comp) <==> Listed(all, v)
    {
      if v in done {
        var c :| 0 <= c < |components| && v in components[c];
        assert v in all[c];
      }
      if v in comp {
        assert v in all[|components|];
      }
    }
  }

  // ---------------------------------------------------------------- symmetric adjacency maps

  ghost predicate Stored(m: Csr<int>, i: nat, j: nat)
    requires m.Valid()
  {
    (i, j) in m.View()
  }

  /** Both directions of the entries before flat index `k`, and the vertices that occur. */
  ghost predicate Mirrors(m: Csr<int>, adj: map<Key, int>, vertices: set<nat>, k: nat)
    requires m.Valid()
  {
    && (forall a: nat, b: nat :: (a, b) in adj <==> Before(m, a, b, k) || Before(m, b, a, k))
    && (forall key: Key | key in adj :: adj[key] == 1)
    && (forall v: nat :: v in vertices <==> exists w: nat :: (v, w) in adj)
  }

  method MirrorEntry(m: Csr<int>, i: nat, k: nat, adj0: map<Key, int>, vertices0: set<nat>) returns (adj: map<Key, int>, vertices: set<nat>)
    requires m.Valid() && m.InRow(i, k) && k < |m.values| && Mirrors(m, adj0, vertices0, k)
    ensures Mirrors(m, adj, vertices, k + 1)
  {
    var j := m.colIndices[k];
    m.RowIs(i, k);
    vertices := vertices0 + {i};
    vertices := vertices + {j};
    adj := InsertNew(adj0, (i, j), 1);
    adj := InsertNew(adj, (j, i), 1);
    MirrorsNext(m, i, j, k, adj0, vertices0, adj, vertices);
  }

  lemma MirrorsNext(m: Csr<int>, i: nat, j: nat, k: nat, before: map<Key, int>, verticesBefore: set<nat>, after: map<Key, int>, vertices: set<nat>)
    requires m.Valid() && k < |m.values| && m.KeyAt(k) == (i, j) && Mirrors(m, before, verticesBefore, k)
    requires vertices == verticesBefore + {i} + {j}
    requires forall key: Key :: key in after <==> key in before || key == (i, j) || key == (j, i)
    requires forall key: Key | key in after :: after[key] == 1
    ensures Mirrors(m, after, vertices, k + 1)
  {
    BeforeNext(m, k, i, j);
    OccursNext(before, after, verticesBefore, vertices, i, j);
    forall a: nat, b: nat
      ensures (a, b) in after <==> Before(m, a, b, k + 1) || Before(m, b, a, k + 1)
    {
      assert (a, b) in after <==> (a, b) in before || (a, b) == (i, j) || (a, b) == (j, i);
    }
  }

  /** Both directions of every stored entry with value 1, and the vertices that occur. */
  method SymmetricAdjacency(m: Csr<int>) returns (adj: map<Key, int>, vertices: set<nat>)
    requires m.Valid() && m.numRows == m.numCols
    ensures forall i: nat, j: nat :: (i, j) in adj <==> Stored(m, i, j) || Stored(m, j, i)
    ensures forall key: Key | key in adj :: adj[key] == 1
    ensures forall v: nat :: v in vertices <==> exists w: nat :: (v, w) in adj
  {
    adj, vertices := map[], {};
    for i := 0 to m.numRows
      invariant Mirrors(m, adj, vertices, m.rowOffsets[i])
    {
      var start, end := m.rowOffsets[i], m.rowOffsets[i + 1];
      assert end <= m.rowOffsets[m.numRows];
      for k := start to end
        invariant Mirrors(m, adj, vertices, k)
      {
        adj, vertices := MirrorEntry(m, i, k, adj, vertices);
      }
    }
    forall a: nat, b: nat
      ensures Before(m, a, b, |m.values|) <==> Stored(m, a, b)
    {
      BeforeAll(m, a, b);
    }
  }

  /** The entry is stored at a flat index before `k`. */
  ghost predicate Before(m: Csr<int>, a: nat, b: nat, k: nat)
    requires m.Valid()
  {
    exists l: nat :: l < k && l < |m.values| && m.KeyAt(l) == (a, b)
  }

  lemma BeforeNext(m: Csr<int>, k: nat, i: nat, j: nat)
    requires m.Valid() && k < |m.values| && m.KeyAt(k) == (i, j)
    ensures forall a: nat, b: nat :: Before(m, a, b, k + 1) <==> Before(m, a, b, k) || (a, b) == (i, j)
  {
    forall a: nat, b: nat
      ensures Before(m, a, b, k + 1) <==> Before(m, a, b, k) || (a, b) == (i, j)
    {
      assert (a, b) == (i, j) ==> k < k + 1 && m.KeyAt(k) == (a, b);
    }
  }

  lemma BeforeAll(m: Csr<int>, a: nat, b: nat)
    requires m.Valid()
    ensures Before(m, a, b, |m.values|) <==> Stored(m, a, b)
  {
    if Before(m, a, b, |m.values|) {
      var l: nat :| l < |m.values| && m.KeyAt(l) == (a, b);
      m.ViewAt(l);
    }
    if Stored(m, a, b) {
      var l := m.IndexOf((a, b));
    }
  }

  lemma OccursNext(before: map<Key, int>, after: map<Key, int>, verticesBefore: set<nat>, vertices: set<nat>, i: nat, j: nat)
    requires forall v: nat :: v in verticesBefore <==> exists w: nat :: (v, w) in before
    requires vertices == verticesBefore + {i} + {j}
    requires forall key: Key :: key in after <==> key in before || key == (i, j) || key == (j, i)
    ensures forall v: nat :: v in vertices <==> exists w: nat :: (v, w) in after
  {
    forall v: nat
      ensures v in vertices <==> exists w: nat :: (v, w) in after
    {
      if v in verticesBefore {
        var w: nat :| (v, w) in before;
        assert (v, w) in after;
      }
      assert (i, j) in after && (j, i) in after;
      if w: nat :| (v, w) in after {
        assert (v, w) in before || (v, w) == (i, j) || (v, w) == (j, i);
      }
    }
  }

  lemma AdjacencyUndirected(g: Csr<int>, adj: map<Key, int>)
    requires g.Valid() && g.numRows == g.numCols && g.View() == adj
    requires forall key: Key | key in adj :: adj[key] == 1 && (key.1, key.0) in adj
    ensures Undirected(g)
  {
    forall k | 0 <= k < |g.values|
      ensures g.values[k] != 0
    {
      g.ViewAt(k);
    }
  }
}
