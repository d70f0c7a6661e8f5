/** Chains of qubits in a hardware graph: connectivity and the validity of an embedding. */
module Chains {
  import opened Results
  import opened Queues
  import opened IsingProblems

  /** Both directions of every edge, and a loop at every vertex. */
  ghost predicate Symmetric(adj: set<Edge>) {
    forall u: int, v: int | (u, v) in adj :: (v, u) in adj && (u, u) in adj && (v, v) in adj
  }

  ghost predicate Vertices(adj: set<Edge>, adjSize: nat) {
    forall u: int, v: int | (u, v) in adj :: 0 <= u < adjSize && 0 <= v < adjSize
  }

  ghost predicate Crosses(adj: set<Edge>, s: set<int>, t: set<int>) {
    exists u, v :: u in s && v in t && (u, v) in adj
  }

  /** No way to split the vertices in two parts without an edge between them. */
  ghost predicate Connected(c: set<int>, adj: set<Edge>) {
    forall s: set<int> | s < c && s != {} :: Crosses(adj, s, c - s)
  }

  lemma ConnectedSingle(v: int, adj: set<Edge>)
    ensures Connected({v}, adj)
  {
    forall s: set<int> | s < {v}
      ensures s == {}
    {
      assert forall w | w in s :: w == v;
    }
  }

  /** A neighbour of a connected set may join it. */
  lemma ConnectedAdd(c: set<int>, u: int, v: int, adj: set<Edge>)
    requires Symmetric(adj) && Connected(c, adj) && u in c && (u, v) in adj
    ensures Connected(c + {v}, adj)
  {
    forall s: set<int> | s < c + {v} && s != {}
      ensures Crosses(adj, s, c + {v} - s)
    {
      var t := s * c;
      if t == c {
        assert v !in s;
        assert u in s && v in c + {v} - s && (u, v) in adj;
      } else if t == {} {
        assert v in s;
        assert v in s && u in c + {v} - s && (v, u) in adj;
      } else {
        assert Crosses(adj, t, c - t);
        var a, b :| a in t && b in c - t && (a, b) in adj;
        assert a in s && b in c + {v} - s;
      }
    }
  }

  ghost function NeighboursIn(v: int, c: set<int>, adj: set<Edge>): set<int> {
    set w | w in c && w != v && (v, w) in adj
  }

  /** A vertex with a single neighbour may leave. */
  lemma ConnectedRemoveLeaf(c: set<int>, leaf: int, nbr: int, adj: set<Edge>)
    requires Symmetric(adj) && Connected(c, adj) && leaf in c && NeighboursIn(leaf, c, adj) == {nbr}
    ensures nbr in c - {leaf} && Connected(c - {leaf}, adj)
  {
    assert nbr in NeighboursIn(leaf, c, adj);
    forall w | w in c && w != leaf && (leaf, w) in adj
      ensures w == nbr
    {
      assert w in NeighboursIn(leaf, c, adj);
    }
    forall s: set<int> | s < c - {leaf} && s != {}
      ensures Crosses(adj, s, c - {leaf} - s)
    {
      var t := if nbr in s then s + {leaf} else s;
      assert s + {leaf} == c ==> s == c - {leaf};
      assert leaf !in s && t < c;
      assert Crosses(adj, t, c - t);
      var a, b :| a in t && b in c - t && (a, b) in adj;
      assert a in s && b in c - {leaf} - s;
    }
  }

  // ---------------------------------------------------------------- the connectivity test

  /** What `visited` marks. */
  ghost function Marked(visited: seq<bool>): (s: set<int>)
    ensures forall v :: v in s <==> 0 <= v < |visited| && visited[v]
  {
    set v | 0 <= v < |visited| && visited[v]
  }

  lemma MarkedUpdate(visited: seq<bool>, v: nat)
    requires v < |visited|
    ensures Marked(visited[v := true]) == Marked(visited) + {v}
  {
  }

  /** Every edge from a marked vertex outside the queue to the chain ends in a marked vertex. */
  ghost predicate Searched(emb: Chain, adj: set<Edge>, marked: set<int>, q: seq<int>) {
    forall u, v | u in marked && u !in q && v in emb && (u, v) in adj :: v in marked
  }

  method AreConnected(emb: Chain, adj: set<Edge>, adjSize: nat) returns (ok: bool)
    requires emb != [] && Distinct(emb) && Symmetric(adj) && forall v | v in emb :: 0 <= v < adjSize
    ensures ok <==> Connected(Elements(emb), adj)
  {
    var visited := seq(adjSize, _ => false);
    var curr := emb[0];
    assert curr in emb;
    var q := [curr];
    visited := visited[curr := true];
    var cnt := 1;
    assert Marked(visited) == {curr};
    ConnectedSingle(curr, adj);
    while q != []
      invariant |visited| == adjSize && Marked(visited) <= Elements(emb) && cnt == |Marked(visited)|
      invariant Distinct(q) && forall v | v in q :: v in Marked(visited)
      invariant emb[0] in Marked(visited) && Connected(Marked(visited), adj)
      invariant Searched(emb, adj, Marked(visited), q)
      decreases |emb| + adjSize - |Marked(visited)|, |q|
    {
      MarkedBound(visited);
      curr := q[0];
      PopFront(q);
      ghost var tail := q[1..];
      q := q[1..];
      visited, q, cnt := Visit(curr, emb, adj, visited, q, cnt);
    }
    ghost var marked := Marked(visited);
    DistinctSize(emb);
    assert marked == Elements(emb) <==> cnt == |emb| by {
      if cnt == |emb| && marked != Elements(emb) {
        SubsetSize(marked, Elements(emb));
      }
    }
    if marked != Elements(emb) {
      StuckIsDisconnected(emb, adj, marked);
    }
    ok := cnt == |emb|;
  }

  lemma StuckIsDisconnected(emb: Chain, adj: set<Edge>, marked: set<int>)
    requires Searched(emb, adj, marked, []) && marked < Elements(emb) && marked != {}
    ensures !Connected(Elements(emb), adj)
  {
    assert !Crosses(adj, marked, Elements(emb) - marked);
  }

  lemma SubsetSize(s: set<int>, t: set<int>)
    requires s < t
    ensures |s| < |t|
  {
    assert t == s + (t - s);
    assert t - s != {};
  }

  lemma MarkedBound(visited: seq<bool>)
    ensures |Marked(visited)| <= |visited|
    decreases |visited|
  {
    if visited != [] {
      var l := |visited| - 1;
      MarkedBound(visited[..l]);
      assert Marked(visited) == Marked(visited[..l]) + if visited[l] then {l} else {};
    }
  }

  /** Marks and queues the neighbours of `curr` in the chain. */
  method Visit(curr: int, emb: Chain, adj: set<Edge>, visited0: seq<bool>, q0: seq<int>, cnt0: nat)
    returns (visited: seq<bool>, q: seq<int>, cnt: nat)
    requires Symmetric(adj) && forall v | v in emb :: 0 <= v < |visited0|
    requires curr in Marked(visited0) && Marked(visited0) <= Elements(emb) && cnt0 == |Marked(visited0)|
    requires Distinct(q0) && forall v | v in q0 :: v in Marked(visited0)
    requires Connected(Marked(visited0), adj) && Searched(emb, adj, Marked(visited0), q0 + [curr])
    ensures |visited| == |visited0| && Marked(visited0) <= Marked(visited) <= Elements(emb) && cnt == |Marked(visited)|
    ensures Distinct(q) && forall v | v in q :: v in Marked(visited)
    ensures Connected(Marked(visited), adj) && Searched(emb, adj, Marked(visited), q)
    ensures |Marked(visited)| > |Marked(visited0)| || (|Marked(visited)| == |Marked(visited0)| && |q| == |q0|)
  {
    visited, q, cnt := visited0, q0, cnt0;
    for i := 0 to |emb|
      invariant |visited| == |visited0| && Marked(visited0) <= Marked(visited) <= Elements(emb) && cnt == |Marked(visited)|
      invariant Distinct(q) && forall v | v in q :: v in Marked(visited)
      invariant Connected(Marked(visited), adj) && Searched(emb, adj, Marked(visited), q + [curr])
      invariant forall k | 0 <= k < i && (curr, emb[k]) in adj :: emb[k] in Marked(visited)
      invariant |Marked(visited)| > |Marked(visited0)| || (|Marked(visited)| == |Marked(visited0)| && q == q0)
    {
      var v := emb[i];
      assert v in emb;
      if !visited[v] && (curr, v) in adj {
        ConnectedAdd(Marked(visited), curr, v, adj);
        MarkedUpdate(visited, v);
        PushBack(q, v);
        visited := visited[v := true];
        cnt := cnt + 1;
        q := q + [v];
      }
    }
  }

  // ---------------------------------------------------------------- valid embeddings

  ghost predicate ValidChain(chain: Chain, adj: set<Edge>) {
    && chain != [] && Distinct(chain)
    && (forall v | v in chain :: (v, v) in adj)
    && Connected(Elements(chain), adj)
  }

  /** Chains do not share qubits. */
  ghost predicate Disjoint(embeddings: seq<Chain>) {
    forall a, b | 0 <= a < b < |embeddings| :: Elements(embeddings[a]) !! Elements(embeddings[b])
  }

  /** Some qubit of one chain is adjacent to some qubit of the other. */
  ghost predicate Coupled(a: Chain, b: Chain, adj: set<Edge>) {
    exists u, v :: u in a && v in b && (u, v) in adj
  }

  ghost predicate ValidChains(embeddings: seq<Chain>, adj: set<Edge>) {
    && Disjoint(embeddings)
    && (forall c | 0 <= c < |embeddings| :: ValidChain(embeddings[c], adj))
  }

  /** Every nonzero coupling of the problem has a coupler between the two chains. */
  ghost predicate AllCoupled(embeddings: seq<Chain>, j: map<Edge, real>, adj: set<Edge>) {
    forall e: Edge | e in j && j[e] != 0.0 :: 0 <= e.0 < |embeddings| && 0 <= e.1 < |embeddings| && Coupled(embeddings[e.0], embeddings[e.1], adj)
  }

  method ValidateVars(embeddings: seq<Chain>, adj: set<Edge>, adjSize: nat) returns (r: Result<()>)
    requires Symmetric(adj) && Vertices(adj, adjSize)
    requires forall c | 0 <= c < |embeddings| :: Distinct(embeddings[c])
    ensures r.Success? <==> forall c | 0 <= c < |embeddings| :: ValidChain(embeddings[c], adj)
  {
    for c := 0 to |embeddings|
      invariant forall d | 0 <= d < c :: ValidChain(embeddings[d], adj)
    {
      var chain := embeddings[c];
      if chain == [] {
        return Failure("logical variable has empty embedding");
      }
      for k := 0 to |chain|
        invariant forall l | 0 <= l < k :: (chain[l], chain[l]) in adj
      {
        if (chain[k], chain[k]) !in adj {
          ghost var v := chain[k];
          assert v in chain && (v, v) !in adj;
          return Failure("invalid vertex in logical variable");
        }
      }
      var ok := AreConnected(chain, adj, adjSize);
      if !ok {
        return Failure("embedding of logical variable does not induce a connected graph");
      }
    }
    r := Success(());
  }

  method FindCoupler(a: Chain, b: Chain, adj: set<Edge>) returns (connected: bool)
    ensures connected <==> Coupled(a, b, adj)
  {
    connected := false;
    var k := 0;
    while k < |a| && !connected
      invariant 0 <= k <= |a|
      invariant connected ==> Coupled(a, b, adj)
      invariant !connected ==> forall l, v | 0 <= l < k && v in b :: (a[l], v) !in adj
    {
      var t := 0;
      while t < |b| && !connected
        invariant 0 <= t <= |b|
        invariant connected ==> Coupled(a, b, adj)
        invariant !connected ==> forall m | 0 <= m < t :: (a[k], b[m]) !in adj
      {
        connected := (a[k], b[t]) in adj;
        if connected {
          ghost var u, v := a[k], b[t];
          assert u in a && v in b && (u, v) in adj;
        }
        t := t + 1;
      }
      k := k + 1;
    }
  }

  method ValidateEdges(embeddings: seq<Chain>, j: map<Edge, real>, adj: set<Edge>) returns (r: Result<()>)
    requires forall e: Edge | e in j :: 0 <= e.0 < |embeddings| && 0 <= e.1 < |embeddings| && j[e] != 0.0
    ensures r.Success? <==> AllCoupled(embeddings, j, adj)
  {
    var rest := j.Keys;
    while rest != {}
      invariant rest <= j.Keys
      invariant forall e: Edge | e in j && e !in rest :: Coupled(embeddings[e.0], embeddings[e.1], adj)
    {
      var e: Edge :| e in rest;
      var connected := FindCoupler(embeddings[e.0], embeddings[e.1], adj);
      if !connected {
        return Failure("logical variables are not adjacent after embedding");
      }
      rest := rest - {e};
    }
    r := Success(());
  }

  method InsertEdge(adj0: set<Edge>, e: Entry) returns (adj: set<Edge>)
    ensures forall u: int, v: int :: (u, v) in adj <==> (u, v) in adj0 || Mentions(e, u, v)
  {
    adj := adj0;
    adj := adj + {(e.i, e.i)};
    adj := adj + {(e.j, e.j)};
    adj := adj + {(e.i, e.j)};
    adj := adj + {(e.j, e.i)};
  }

  /** The edges of the array in both directions, with loops, and a bound on the vertices. */
  method AdjacencySet(elements: seq<Entry>) returns (r: Result<(set<Edge>, nat)>)
    ensures r.Failure? <==> exists k :: 0 <= k < |elements| && !GoodIndex(elements[k])
    ensures r.Success? ==> Symmetric(r.value.0) && Vertices(r.value.0, r.value.1)
    ensures r.Success? ==> forall u: int, v: int :: (u, v) in r.value.0 <==> IsEdge(elements, u, v)
  {
    var adj: set<Edge>, adjSize: nat := {}, 0;
    for k := 0 to |elements|
      invariant forall l | 0 <= l < k :: GoodIndex(elements[l])
      invariant Symmetric(adj) && Vertices(adj, adjSize)
      invariant forall u: int, v: int :: (u, v) in adj <==> IsEdge(elements[..k], u, v)
    {
      var e := elements[k];
      if e.i < 0 || e.j < 0 || e.i == INT_MAX || e.j == INT_MAX {
        return Failure("invalid adjacency matrix index");
      }
      IsEdgeNext(elements, k);
      adjSize := Larger(adjSize, Larger(e.i, e.j) + 1);
      adj := InsertEdge(adj, e);
    }
    assert elements[..|elements|] == elements;
    r := Success((adj, adjSize));
  }

  ghost predicate Mentions(e: Entry, u: int, v: int) {
    (e.i == u && e.j == v) || (e.i == v && e.j == u) || (u == v && (e.i == u || e.j == u))
  }

  ghost predicate IsEdge(elements: seq<Entry>, u: int, v: int) {
    exists k :: 0 <= k < |elements| && Mentions(elements[k], u, v)
  }

  lemma IsEdgeNext(elements: seq<Entry>, k: nat)
    requires k < |elements|
    ensures forall u, v :: IsEdge(elements[..k + 1], u, v) <==> IsEdge(elements[..k], u, v) || Mentions(elements[k], u, v)
  {
    forall u, v
      ensures IsEdge(elements[..k + 1], u, v) <==> IsEdge(elements[..k], u, v) || Mentions(elements[k], u, v)
    {
      assert elements[..k + 1][k] == elements[k];
      if IsEdge(elements[..k], u, v) {
        var l :| 0 <= l < k && Mentions(elements[..k][l], u, v);
        assert elements[..k + 1][l] == elements[l];
      }
      if IsEdge(elements[..k + 1], u, v) {
        var l :| 0 <= l < k + 1 && Mentions(elements[..k + 1][l], u, v);
        assert l < k ==> elements[..k][l] == elements[l];
      }
    }
  }
}
