/** Removing qubits an embedding does not need. */
module EmbeddingCleaning {
  import opened Queues
  import opened IsingProblems
  import opened Chains

  /** The variables the problem uses. */
  ghost predicate Used(h: seq<real>, j: map<Edge, real>, i: int) {
    (0 <= i < |h| && h[i] != 0.0) || exists e: Edge :: e in j && j[e] != 0.0 && (e.0 == i || e.1 == i)
  }

  method UsedVariables(h: seq<real>, j: map<Edge, real>) returns (used: set<int>)
    ensures forall i :: i in used <==> Used(h, j, i)
  {
    used := {};
    var rest := j.Keys;
    while rest != {}
      invariant rest <= j.Keys
      invariant forall i :: i in used <==> exists e: Edge :: e in j && e !in rest && j[e] != 0.0 && (e.0 == i || e.1 == i)
    {
      var e: Edge :| e in rest;
      ghost var before, left := used, rest;
      if j[e] != 0.0 {
        used := used + {e.0};
        used := used + {e.1};
      }
      rest := rest - {e};
      forall i
        ensures i in used <==> exists f: Edge :: f in j && f !in rest && j[f] != 0.0 && (f.0 == i || f.1 == i)
      {
        if i in before {
          var f: Edge :| f in j && f !in left && j[f] != 0.0 && (f.0 == i || f.1 == i);
          assert f !in rest;
        }
        assert e !in rest;
      }
    }
    for i := 0 to |h|
      invariant forall k :: k in used <==> Used(h[..i], j, k)
    {
      if h[i] != 0.0 {
        used := used + {i};
      }
    }
    assert h[..|h|] == h;
  }

  /** Chains of unused variables keep their first qubit only. */
  ghost function Shortened(embeddings: seq<Chain>, used: set<int>): (r: seq<Chain>)
    requires forall c | 0 <= c < |embeddings| :: embeddings[c] != []
    ensures |r| == |embeddings| && forall c | 0 <= c < |r| :: r[c] == if c in used then embeddings[c] else embeddings[c][..1]
  {
    seq(|embeddings|, c requires 0 <= c < |embeddings| => if c in used then embeddings[c] else embeddings[c][..1])
  }

  method Shorten(embeddings0: seq<Chain>, used: set<int>) returns (embeddings: seq<Chain>)
    requires forall c | 0 <= c < |embeddings0| :: embeddings0[c] != []
    ensures embeddings == Shortened(embeddings0, used)
  {
    embeddings := embeddings0;
    for c := 0 to |embeddings|
      invariant |embeddings| == |embeddings0|
      invariant forall d | 0 <= d < |embeddings| ::
                  embeddings[d] == if d < c && d !in used then embeddings0[d][..1] else embeddings0[d]
    {
      if c !in used {
        embeddings := embeddings[c := embeddings[c][..1]];
      }
    }
  }

  lemma ShortenedValid(embeddings: seq<Chain>, used: set<int>, adj: set<Edge>)
    requires ValidChains(embeddings, adj)
    ensures ValidChains(Shortened(embeddings, used), adj)
  {
    var r := Shortened(embeddings, used);
    forall c | 0 <= c < |r|
      ensures ValidChain(r[c], adj) && Elements(r[c]) <= Elements(embeddings[c])
    {
      if c !in used {
        var v := embeddings[c][0];
        assert v in embeddings[c] && r[c] == [v];
        ConnectedSingle(v, adj);
        assert Elements(r[c]) == {v};
      }
    }
  }

  // ---------------------------------------------------------------- qubits that carry couplers

  /** Qubit `u` is an end of a coupler between the chains of a nonzero coupling. */
  ghost predicate Carries(embeddings: seq<Chain>, e: Edge, adj: set<Edge>, u: int)
    requires 0 <= e.0 < |embeddings| && 0 <= e.1 < |embeddings|
  {
    || (u in embeddings[e.0] && exists v :: v in embeddings[e.1] && (u, v) in adj)
    || (u in embeddings[e.1] && exists v :: v in embeddings[e.0] && (v, u) in adj)
  }

  ghost predicate Protected(embeddings: seq<Chain>, j: map<Edge, real>, adj: set<Edge>, u: int)
    requires forall e: Edge | e in j && j[e] != 0.0 :: 0 <= e.0 < |embeddings| && 0 <= e.1 < |embeddings|
  {
    exists e: Edge :: e in j && j[e] != 0.0 && Carries(embeddings, e, adj, u)
  }

  method EndsAt(x: int, b: Chain, adj: set<Edge>) returns (ends: set<int>)
    ensures forall u :: u in ends <==> (u == x && exists v :: v in b && (x, v) in adj) || (u in b && (x, u) in adj)
  {
    ends := {};
    for l := 0 to |b|
      invariant forall u :: u in ends <==> (u == x && exists v :: v in b[..l] && (x, v) in adj) || (u in b[..l] && (x, u) in adj)
    {
      assert forall v :: v in b[..l + 1] <==> v in b[..l] || v == b[l] by {
        assert b[..l + 1] == b[..l] + [b[l]];
      }
      if (x, b[l]) in adj {
        ends := ends + {x};
        ends := ends + {b[l]};
      }
    }
    assert b[..|b|] == b;
  }

  /** The ends of all couplers between two chains. */
  method CouplerEnds(a: Chain, b: Chain, adj: set<Edge>) returns (ends: set<int>)
    ensures forall u :: u in ends <==> (u in a && exists v :: v in b && (u, v) in adj) || (u in b && exists v :: v in a && (v, u) in adj)
  {
    ends := {};
    for k := 0 to |a|
      invariant forall u :: u in ends <==> (u in a[..k] && exists v :: v in b && (u, v) in adj) || (u in b && exists v :: v in a[..k] && (v, u) in adj)
    {
      assert a[..k + 1] == a[..k] + [a[k]];
      var more := EndsAt(a[k], b, adj);
      ends := ends + more;
    }
    assert a[..|a|] == a;
  }

  method InterchainQubits(embeddings: seq<Chain>, j: map<Edge, real>, adj: set<Edge>) returns (interchain: set<int>)
    requires forall e: Edge | e in j && j[e] != 0.0 :: 0 <= e.0 < |embeddings| && 0 <= e.1 < |embeddings|
    ensures forall u :: u in interchain <==> Protected(embeddings, j, adj, u)
  {
    interchain := {};
    var rest := j.Keys;
    while rest != {}
      invariant rest <= j.Keys
      invariant forall u :: u in interchain <==> exists e: Edge :: e in j && e !in rest && j[e] != 0.0 && Carries(embeddings, e, adj, u)
    {
      var e: Edge :| e in rest;
      ghost var before, left := interchain, rest;
      if j[e] != 0.0 {
        var ends := CouplerEnds(embeddings[e.0], embeddings[e.1], adj);
        interchain := interchain + ends;
      }
      rest := rest - {e};
      forall u
        ensures u in interchain <==> exists f: Edge :: f in j && f !in rest && j[f] != 0.0 && Carries(embeddings, f, adj, u)
      {
        if u in before {
          var f: Edge :| f in j && f !in left && j[f] != 0.0 && Carries(embeddings, f, adj, u);
          assert f !in rest;
        }
        assert e !in rest;
      }
    }
  }

  // ---------------------------------------------------------------- pruning leaves

  /** `kept` is what remains of the chain: connected, not empty, and no protected qubit was removed. */
  ghost predicate Pruning(emb: Chain, protected: set<int>, adj: set<Edge>, pruned: set<int>) {
    && pruned <= Elements(emb) - protected
    && pruned != Elements(emb)
    && Connected(Elements(emb) - pruned, adj)
  }

  /** Each removed qubit was unprotected and had exactly one neighbour among the qubits left at the time. */
  ghost predicate LeafRun(chain: set<int>, removed: seq<int>, protected: set<int>, adj: set<Edge>) {
    removed == [] ||
    var l := |removed| - 1;
    var left := chain - Elements(removed[..l]);
    && LeafRun(chain, removed[..l], protected, adj)
    && removed[l] in left - protected && |NeighboursIn(removed[l], left, adj)| == 1
  }

  /** The neighbour sets of the unprotected remaining qubits are exact. */
  ghost predicate Tracks(emb: Chain, protected: set<int>, adj: set<Edge>, pruned: set<int>, embNbrs: map<int, set<int>>) {
    && (forall u :: u in embNbrs <==> u in emb && u !in protected)
    && (forall u | u in embNbrs && u !in pruned :: embNbrs[u] == NeighboursIn(u, Elements(emb) - pruned, adj))
  }

  /** Leaves are unprotected remaining qubits with at most one neighbour, and all with exactly one are listed. */
  ghost predicate LeavesListed(embNbrs: map<int, set<int>>, pruned: set<int>, leaves: set<int>) {
    && (forall u | u in leaves :: u in embNbrs && u !in pruned && |embNbrs[u]| <= 1)
    && (forall u | u in embNbrs && u !in pruned && |embNbrs[u]| == 1 :: u in leaves)
  }

  method ChainNeighbours(u: int, emb: Chain, adj: set<Edge>) returns (nbrs: set<int>)
    ensures nbrs == NeighboursIn(u, Elements(emb), adj)
  {
    nbrs := {};
    for k := 0 to |emb|
      invariant forall w :: w in nbrs <==> w in emb[..k] && w != u && (u, w) in adj
    {
      assert emb[..k + 1] == emb[..k] + [emb[k]];
      if emb[k] != u && (u, emb[k]) in adj {
        nbrs := nbrs + {emb[k]};
      }
    }
    assert emb[..|emb|] == emb;
    ghost var all := NeighboursIn(u, Elements(emb), adj);
    assert forall w :: w in all <==> w in emb && w != u && (u, w) in adj;
    SameSet(nbrs, all);
  }

  method InitialLeaves(emb: Chain, protected: set<int>, adj: set<Edge>) returns (leaves: set<int>, embNbrs: map<int, set<int>>)
    ensures Tracks(emb, protected, adj, {}, embNbrs) && LeavesListed(embNbrs, {}, leaves)
  {
    leaves, embNbrs := {}, map[];
    for k := 0 to |emb|
      invariant forall u :: u in embNbrs <==> u in emb[..k] && u !in protected
      invariant forall u | u in embNbrs :: embNbrs[u] == NeighboursIn(u, Elements(emb), adj)
      invariant forall u :: u in leaves <==> u in embNbrs && |embNbrs[u]| == 1
    {
      var u := emb[k];
      assert emb[..k + 1] == emb[..k] + [u];
      if u !in protected {
        var nbrs := ChainNeighbours(u, emb, adj);
        if |nbrs| == 1 {
          leaves := leaves + {u};
        }
        embNbrs := embNbrs[u := nbrs];
      }
    }
    assert emb[..|emb|] == emb;
    assert Elements(emb) - {} == Elements(emb);
  }

  lemma OneElement(s: set<int>, v: int)
    requires v in s && |s| <= 1
    ensures s == {v}
  {
    assert |s - {v}| == 0;
    assert forall w | w in s :: w == v || w in s - {v};
  }

  /** The leaf drops out of the neighbour set of its neighbour and of no other. */
  lemma TracksAfterPrune(emb: Chain, protected: set<int>, adj: set<Edge>, pruned: set<int>, embNbrs: map<int, set<int>>, leaf: int, nbr: int,
                         after: map<int, set<int>>)
    requires Symmetric(adj) && Tracks(emb, protected, adj, pruned, embNbrs)
    requires leaf in embNbrs && leaf !in pruned && embNbrs[leaf] == {nbr}
    requires after == if nbr in embNbrs then embNbrs[nbr := embNbrs[nbr] - {leaf}] else embNbrs
    ensures Tracks(emb, protected, adj, pruned + {leaf}, after)
    ensures forall u | u in after && u != nbr :: after[u] == embNbrs[u]
  {
    var left, now := Elements(emb) - pruned, Elements(emb) - (pruned + {leaf});
    forall u | u in after && u !in pruned + {leaf}
      ensures after[u] == NeighboursIn(u, now, adj)
    {
      assert NeighboursIn(u, now, adj) == NeighboursIn(u, left, adj) - {leaf};
      assert leaf in NeighboursIn(u, left, adj) <==> u in NeighboursIn(leaf, left, adj);
    }
  }

  method Prune(emb: Chain, protected: set<int>, adj: set<Edge>) returns (pruned: set<int>, ghost removed: seq<int>)
    requires Symmetric(adj) && ValidChain(emb, adj)
    ensures Pruning(emb, protected, adj, pruned)
    ensures pruned == Elements(removed) && LeafRun(Elements(emb), removed, protected, adj)
    // a fixpoint: no removable leaf is left
    ensures forall u | u in emb && u !in pruned && u !in protected :: |NeighboursIn(u, Elements(emb) - pruned, adj)| != 1
  {
    var leaves, embNbrs := InitialLeaves(emb, protected, adj);
    pruned, removed := {}, [];
    assert Elements(emb) - pruned == Elements(emb);
    assert emb[0] in Elements(emb);
    while leaves != {}
      invariant Pruning(emb, protected, adj, pruned)
      invariant pruned == Elements(removed) && LeafRun(Elements(emb), removed, protected, adj)
      invariant Tracks(emb, protected, adj, pruned, embNbrs) && LeavesListed(embNbrs, pruned, leaves)
      decreases Elements(emb) - pruned, leaves
    {
      Inhabited(leaves);
      var leaf :| leaf in leaves;
      leaves := leaves - {leaf};
      if embNbrs[leaf] == {} {
        continue;
      }
      ghost var before := pruned;
      pruned, leaves, embNbrs := PruneLeaf(emb, protected, adj, pruned, embNbrs, leaves, leaf);
      RunGrows(Elements(emb), removed, protected, adj, before, leaf);
      removed := removed + [leaf];
    }
  }

  lemma RunGrows(chain: set<int>, removed: seq<int>, protected: set<int>, adj: set<Edge>, pruned: set<int>, leaf: int)
    requires pruned == Elements(removed) && LeafRun(chain, removed, protected, adj)
    requires leaf in chain - pruned - protected && |NeighboursIn(leaf, chain - pruned, adj)| == 1
    ensures LeafRun(chain, removed + [leaf], protected, adj) && Elements(removed + [leaf]) == pruned + {leaf}
  {
    var more := removed + [leaf];
    assert more[..|more| - 1] == removed;
  }

  method PruneLeaf(emb: Chain, protected: set<int>, adj: set<Edge>, pruned0: set<int>, embNbrs0: map<int, set<int>>, leaves0: set<int>, leaf: int)
    returns (pruned: set<int>, leaves: set<int>, embNbrs: map<int, set<int>>)
    requires Symmetric(adj) && Pruning(emb, protected, adj, pruned0)
    requires Tracks(emb, protected, adj, pruned0, embNbrs0) && LeavesListed(embNbrs0, pruned0, leaves0 + {leaf})
    requires leaf !in leaves0 && embNbrs0[leaf] != {}
    ensures pruned == pruned0 + {leaf} && leaf in Elements(emb) - pruned0 - protected
    ensures |NeighboursIn(leaf, Elements(emb) - pruned0, adj)| == 1
    ensures Pruning(emb, protected, adj, pruned)
    ensures Tracks(emb, protected, adj, pruned, embNbrs) && LeavesListed(embNbrs, pruned, leaves)
  {
    assert leaf in leaves0 + {leaf};
    pruned, leaves, embNbrs := pruned0 + {leaf}, leaves0, embNbrs0;
    var nbr :| nbr in embNbrs[leaf];
    OneElement(embNbrs[leaf], nbr);
    ConnectedRemoveLeaf(Elements(emb) - pruned0, leaf, nbr, adj);
    assert Elements(emb) - pruned0 - {leaf} == Elements(emb) - pruned;
    if nbr in embNbrs {
      embNbrs := embNbrs[nbr := embNbrs[nbr] - {leaf}];
      if |embNbrs[nbr]| == 1 {
        leaves := leaves + {nbr};
      }
    }
    TracksAfterPrune(emb, protected, adj, pruned0, embNbrs0, leaf, nbr, embNbrs);
  }

  // ---------------------------------------------------------------- the whole operation

  ghost function Without(emb: Chain, pruned: set<int>): (r: Chain)
    ensures forall v :: v in r <==> v in emb && v !in pruned
  {
    if emb == [] then [] else
      var l := |emb| - 1;
      Without(emb[..l], pruned) + if emb[l] in pruned then [] else [emb[l]]
  }

  lemma {:induction false} WithoutDistinct(emb: Chain, pruned: set<int>)
    requires Distinct(emb)
    ensures Distinct(Without(emb, pruned))
  {
    if emb != [] {
      var l := |emb| - 1;
      WithoutDistinct(emb[..l], pruned);
      assert emb[l] !in emb[..l];
    }
  }

  method Filter(emb: Chain, pruned: set<int>) returns (newEmb: Chain)
    ensures newEmb == Without(emb, pruned)
  {
    newEmb := [];
    for k := 0 to |emb|
      invariant newEmb == Without(emb[..k], pruned)
    {
      assert emb[..k + 1][..k] == emb[..k];
      if emb[k] !in pruned {
        newEmb := newEmb + [emb[k]];
      }
    }
    assert emb[..|emb|] == emb;
  }

  /** Every qubit of the chain that carries no coupler has no or several neighbours in it. */
  ghost predicate Trimmed(chain: Chain, protected: set<int>, adj: set<Edge>) {
    forall u | u in chain && u !in protected :: |NeighboursIn(u, Elements(chain), adj)| != 1
  }

  /** What leaf pruning leaves of a chain, in its order. */
  ghost predicate PrunedFrom(newEmb: Chain, emb: Chain, protected: set<int>, adj: set<Edge>) {
    exists removed: seq<int> :: LeafRun(Elements(emb), removed, protected, adj) && newEmb == Without(emb, Elements(removed))
  }

  /** The chain after cleaning: still valid, pruned to the end, with all its protected qubits. */
  ghost predicate ChainCleaned(newEmb: Chain, emb: Chain, protected: set<int>, adj: set<Edge>) {
    && ValidChain(newEmb, adj) && Elements(newEmb) <= Elements(emb)
    && PrunedFrom(newEmb, emb, protected, adj) && Trimmed(newEmb, protected, adj)
    && forall u | u in emb && u in protected :: u in newEmb
  }

  method CleanChain(emb: Chain, protected: set<int>, adj: set<Edge>) returns (newEmb: Chain)
    requires Symmetric(adj) && ValidChain(emb, adj)
    ensures ChainCleaned(newEmb, emb, protected, adj)
  {
    var pruned;
    ghost var removed;
    pruned, removed := Prune(emb, protected, adj);
    newEmb := Filter(emb, pruned);
    assert Elements(newEmb) == Elements(emb) - pruned;
    WithoutDistinct(emb, pruned);
    assert newEmb == [] ==> Elements(newEmb) == {};
  }

  lemma CouplingsAreUsed(h: seq<real>, j: map<Edge, real>, e: Edge)
    requires e in j && j[e] != 0.0
    ensures Used(h, j, e.0) && Used(h, j, e.1)
  {
  }

  lemma CouplerKeptAt(embeddings: seq<Chain>, used: set<int>, h: seq<real>, j: map<Edge, real>, adj: set<Edge>, e: Edge) returns (u: int, v: int)
    requires Symmetric(adj) && AllCoupled(embeddings, j, adj) && forall c | 0 <= c < |embeddings| :: embeddings[c] != []
    requires (forall i :: i in used <==> Used(h, j, i)) && e in j && j[e] != 0.0
    ensures u in Shortened(embeddings, used)[e.0] && v in Shortened(embeddings, used)[e.1] && (u, v) in adj
    ensures Protected(Shortened(embeddings, used), j, adj, u) && Protected(Shortened(embeddings, used), j, adj, v)
  {
    var short := Shortened(embeddings, used);
    CouplingsAreUsed(h, j, e);
    assert short[e.0] == embeddings[e.0] && short[e.1] == embeddings[e.1];
    assert Coupled(embeddings[e.0], embeddings[e.1], adj);
    u, v :| u in embeddings[e.0] && v in embeddings[e.1] && (u, v) in adj;
    assert Carries(short, e, adj, u) && Carries(short, e, adj, v);
  }

  /** Chains with the same carried qubits keep the couplers. */
  lemma CouplerKept(embeddings: seq<Chain>, used: set<int>, h: seq<real>, j: map<Edge, real>, adj: set<Edge>, interchain: set<int>, r: seq<Chain>)
    requires Symmetric(adj) && AllCoupled(embeddings, j, adj) && forall c | 0 <= c < |embeddings| :: embeddings[c] != []
    requires forall i :: i in used <==> Used(h, j, i)
    requires |r| == |embeddings| && forall u :: u in interchain <==> Protected(Shortened(embeddings, used), j, adj, u)
    requires forall c | 0 <= c < |r| :: ChainCleaned(r[c], Shortened(embeddings, used)[c], interchain, adj)
    ensures AllCoupled(r, j, adj)
  {
    forall e: Edge | e in j && j[e] != 0.0
      ensures 0 <= e.0 < |r| && 0 <= e.1 < |r| && Coupled(r[e.0], r[e.1], adj)
    {
      var u, v := CouplerKeptAt(embeddings, used, h, j, adj, e);
      assert u in r[e.0] && v in r[e.1];
    }
  }

  method CleanChains(embeddings: seq<Chain>, interchain: set<int>, adj: set<Edge>) returns (newEmbeddings: seq<Chain>)
    requires Symmetric(adj) && forall c | 0 <= c < |embeddings| :: ValidChain(embeddings[c], adj)
    ensures |newEmbeddings| == |embeddings|
    ensures forall c | 0 <= c < |embeddings| :: ChainCleaned(newEmbeddings[c], embeddings[c], interchain, adj)
  {
    newEmbeddings := [];
    for c := 0 to |embeddings|
      invariant |newEmbeddings| == c
      invariant forall d | 0 <= d < c :: ChainCleaned(newEmbeddings[d], embeddings[d], interchain, adj)
    {
      var newEmb := CleanChain(embeddings[c], interchain, adj);
      newEmbeddings := newEmbeddings + [newEmb];
    }
  }

  /** Protected are exactly the qubits that carry a coupler of a nonzero coupling. */
  ghost predicate IsProtected(protected: set<int>, embeddings: seq<Chain>, j: map<Edge, real>, adj: set<Edge>)
    requires forall e: Edge | e in j && j[e] != 0.0 :: 0 <= e.0 < |embeddings| && 0 <= e.1 < |embeddings|
  {
    forall u :: u in protected <==> Protected(embeddings, j, adj, u)
  }

  /** Chains of unused variables keep their first qubit; from the others unprotected leaves are pruned until there are none. */
  ghost predicate Cleaned(h: seq<real>, j: map<Edge, real>, before: seq<Chain>, after: seq<Chain>, protected: set<int>, adj: set<Edge>) {
    && |after| == |before|
    && (forall c | 0 <= c < |after| && !Used(h, j, c) :: before[c] != [] && after[c] == before[c][..1])
    && (forall c | 0 <= c < |after| && Used(h, j, c) :: PrunedFrom(after[c], before[c], protected, adj) && Trimmed(after[c], protected, adj))
  }

  /** A valid embedding stays valid, chains only lose qubits, no coupling loses its last coupler, and no removable leaf is left. */
  method CleanEmbedding(h: seq<real>, j: map<Edge, real>, embeddings: seq<Chain>, adj: set<Edge>)
    returns (newEmbeddings: seq<Chain>, ghost protected: set<int>)
    requires Symmetric(adj) && ValidChains(embeddings, adj) && AllCoupled(embeddings, j, adj)
    ensures |newEmbeddings| == |embeddings| && ValidChains(newEmbeddings, adj) && AllCoupled(newEmbeddings, j, adj)
    ensures forall c | 0 <= c < |embeddings| :: Elements(newEmbeddings[c]) <= Elements(embeddings[c])
    ensures IsProtected(protected, embeddings, j, adj) && Cleaned(h, j, embeddings, newEmbeddings, protected, adj)
    ensures forall c, u | 0 <= c < |embeddings| && u in embeddings[c] && u in protected :: u in newEmbeddings[c]
  {
    var used := UsedVariables(h, j);
    ShortenedValid(embeddings, used, adj);
    var short := Shorten(embeddings, used);
    var interchain := InterchainQubits(short, j, adj);
    protected := interchain;
    newEmbeddings := CleanChains(short, interchain, adj);
    SameProtected(embeddings, used, h, j, adj, interchain);
    CleanedFacts(embeddings, used, h, j, adj, interchain, newEmbeddings);
    CouplerKept(embeddings, used, h, j, adj, interchain, newEmbeddings);
    ProtectedStay(embeddings, used, h, j, adj, interchain, newEmbeddings);
  }

  lemma SameProtected(embeddings: seq<Chain>, used: set<int>, h: seq<real>, j: map<Edge, real>, adj: set<Edge>, interchain: set<int>)
    requires ValidChains(embeddings, adj) && AllCoupled(embeddings, j, adj) && forall i :: i in used <==> Used(h, j, i)
    requires forall u :: u in interchain <==> Protected(Shortened(embeddings, used), j, adj, u)
    ensures IsProtected(interchain, embeddings, j, adj)
  {
    var short := Shortened(embeddings, used);
    forall e: Edge, u | e in j && j[e] != 0.0
      ensures Carries(short, e, adj, u) <==> Carries(embeddings, e, adj, u)
    {
      CouplingsAreUsed(h, j, e);
      assert short[e.0] == embeddings[e.0] && short[e.1] == embeddings[e.1];
    }
  }

  /** A qubit that carries a coupler lies in the chain of a used variable. */
  lemma ProtectedStay(embeddings: seq<Chain>, used: set<int>, h: seq<real>, j: map<Edge, real>, adj: set<Edge>, interchain: set<int>, r: seq<Chain>)
    requires ValidChains(embeddings, adj) && AllCoupled(embeddings, j, adj) && forall i :: i in used <==> Used(h, j, i)
    requires IsProtected(interchain, embeddings, j, adj) && |r| == |embeddings|
    requires forall c | 0 <= c < |r| :: ChainCleaned(r[c], Shortened(embeddings, used)[c], interchain, adj)
    ensures forall c, u | 0 <= c < |r| && u in embeddings[c] && u in interchain :: u in r[c]
  {
    forall c, u | 0 <= c < |r| && u in embeddings[c] && u in interchain
      ensures u in r[c]
    {
      var e: Edge :| e in j && j[e] != 0.0 && Carries(embeddings, e, adj, u);
      CouplingsAreUsed(h, j, e);
      var d := if u in embeddings[e.0] then e.0 else e.1;
      assert u in Elements(embeddings[c]) && u in Elements(embeddings[d]);
      assert c == d && Shortened(embeddings, used)[c] == embeddings[c];
    }
  }

  lemma CleanedFacts(embeddings: seq<Chain>, used: set<int>, h: seq<real>, j: map<Edge, real>, adj: set<Edge>, interchain: set<int>, r: seq<Chain>)
    requires ValidChains(embeddings, adj) && forall i :: i in used <==> Used(h, j, i)
    requires |r| == |embeddings| && forall c | 0 <= c < |r| :: ChainCleaned(r[c], Shortened(embeddings, used)[c], interchain, adj)
    ensures ValidChains(r, adj) && Cleaned(h, j, embeddings, r, interchain, adj)
    ensures forall c | 0 <= c < |r| :: Elements(r[c]) <= Elements(embeddings[c])
  {
    var short := Shortened(embeddings, used);
    forall c | 0 <= c < |r|
      ensures Elements(r[c]) <= Elements(embeddings[c])
      ensures c !in used ==> r[c] == embeddings[c][..1]
    {
      assert Elements(short[c]) <= Elements(embeddings[c]);
      if c !in used {
        SingleChain(r[c], embeddings[c][0]);
      }
    }
  }

  lemma SingleChain(chain: Chain, v: int)
    requires chain != [] && Distinct(chain) && Elements(chain) <= Elements([v])
    ensures chain == [v]
  {
    assert |chain| > 1 ==> chain[0] != chain[1];
    forall k | 0 <= k < |chain|
      ensures chain[k] == v
    {
      assert chain[k] in Elements(chain) && chain[k] in [v];
    }
  }
}
