/** Growing chains into unused qubits. The target sizes are inputs. */
module EmbeddingSmearing {
  import opened Queues
  import opened IsingProblems
  import opened Chains

  ghost function AllQubits(embeddings: seq<Chain>): (s: set<int>)
    ensures forall v :: v in s <==> exists c :: 0 <= c < |embeddings| && v in embeddings[c]
  {
    set c, v | 0 <= c < |embeddings| && v in embeddings[c] :: v
  }

  method UsedQubits(embeddings: seq<Chain>) returns (used: set<int>)
    ensures used == AllQubits(embeddings)
  {
    used := {};
    for c := 0 to |embeddings|
      invariant forall v :: v in used <==> exists d :: 0 <= d < c && v in embeddings[d]
    {
      ghost var before := used;
      for k := 0 to |embeddings[c]|
        invariant forall v :: v in used <==> v in before || v in embeddings[c][..k]
      {
        used := used + {embeddings[c][k]};
        assert forall v :: v in embeddings[c][..k + 1] <==> v in embeddings[c][..k] || v == embeddings[c][k] by {
          assert embeddings[c][..k + 1] == embeddings[c][..k] + [embeddings[c][k]];
        }
      }
      assert embeddings[c][..|embeddings[c]|] == embeddings[c];
    }
    ghost var all := AllQubits(embeddings);
    SameSet(used, all);
  }

  function EntrySet(m: map<int, set<int>>, k: int): set<int> {
    if k in m then m[k] else {}
  }

  /** `adjv` lists the neighbours of every vertex that were not used at the start. */
  ghost predicate FreeNeighbours(adjv: map<int, set<int>>, adj: set<Edge>, used: set<int>) {
    forall u, v :: v in EntrySet(adjv, u) <==> u != v && (u, v) in adj && v !in used
  }

  method BuildFreeNeighbours(adj: set<Edge>, used: set<int>) returns (adjv: map<int, set<int>>)
    requires Symmetric(adj)
    ensures FreeNeighbours(adjv, adj, used)
  {
    adjv := map[];
    var rest := adj;
    while rest != {}
      invariant rest <= adj
      invariant forall u, v :: v in EntrySet(adjv, u) <==> u != v && v !in used && Listed(adj, rest, u, v)
    {
      var e: Edge :| e in rest;
      ghost var before, left := adjv, rest;
      if e.0 < e.1 {
        if e.0 !in used {
          adjv := adjv[e.1 := EntrySet(adjv, e.1) + {e.0}];
        }
        if e.1 !in used {
          adjv := adjv[e.0 := EntrySet(adjv, e.0) + {e.1}];
        }
      }
      rest := rest - {e};
      forall u, v
        ensures v in EntrySet(adjv, u) <==> u != v && v !in used && Listed(adj, rest, u, v)
      {
        assert v in EntrySet(before, u) <==> u != v && v !in used && Listed(adj, left, u, v);
      }
    }
    assert rest == {};
    forall u, v
      ensures v in EntrySet(adjv, u) <==> u != v && (u, v) in adj && v !in used
    {
      AllListed(adj, u, v);
    }
  }

  lemma AllListed(adj: set<Edge>, u: int, v: int)
    requires Symmetric(adj)
    ensures Listed(adj, {}, u, v) <==> (u, v) in adj
  {
    assert (u, v) in adj <==> (v, u) in adj;
  }

  /** The ascending form of the edge was seen already. */
  ghost predicate Listed(adj: set<Edge>, rest: set<Edge>, u: int, v: int) {
    if u < v then (u, v) in adj && (u, v) !in rest else (v, u) in adj && (v, u) !in rest
  }

  /** The chain wants to grow further but has no unused neighbour. */
  ghost predicate Enclosed(chain: Chain, adj: set<Edge>, used: set<int>) {
    forall u, v | u in chain && (u, v) in adj :: v in used
  }

  ghost function VerticesOf(adj: set<Edge>): (s: set<int>)
    ensures forall u: int, v: int | (u, v) in adj :: u in s && v in s
  {
    (set e: Edge | e in adj :: e.0) + (set e: Edge | e in adj :: e.1)
  }

  method Available(emb: Chain, adjv: map<int, set<int>>, used: set<int>) returns (avail: set<int>)
    ensures forall v :: v in avail <==> v !in used && exists u :: u in emb && v in EntrySet(adjv, u)
  {
    avail := {};
    for k := 0 to |emb|
      invariant forall v :: v in avail <==> v !in used && exists u :: u in emb[..k] && v in EntrySet(adjv, u)
    {
      assert forall u :: u in emb[..k + 1] <==> u in emb[..k] || u == emb[k] by {
        assert emb[..k + 1] == emb[..k] + [emb[k]];
      }
      avail := avail + (set v | v in EntrySet(adjv, emb[k]) && v !in used);
    }
    assert emb[..|emb|] == emb;
  }

  /** Grows one chain until the target is met or no unused qubit is adjacent. */
  method GrowChain(emb0: Chain, target: real, adjv: map<int, set<int>>, used0: set<int>, adj: set<Edge>, ghost start: set<int>)
    returns (emb: Chain, used: set<int>)
    requires Symmetric(adj) && ValidChain(emb0, adj) && Elements(emb0) <= used0 && start <= used0
    requires FreeNeighbours(adjv, adj, start)
    ensures emb0 <= emb && ValidChain(emb, adj)
    ensures used == used0 + Elements(emb) && Elements(emb) * used0 == Elements(emb0)
    ensures |emb| > |emb0| ==> (|emb| - 1) as real < target
    ensures |emb| as real < target ==> Enclosed(emb, adj, used)
  {
    emb, used := emb0, used0;
    var avail: set<int> := {};
    while |emb| as real < target
      invariant emb0 <= emb && ValidChain(emb, adj)
      invariant used == used0 + Elements(emb) && Elements(emb) * used0 == Elements(emb0)
      invariant |emb| > |emb0| ==> (|emb| - 1) as real < target
      invariant forall v | v in avail :: v !in used && exists u :: u in emb && (u, v) in adj
      decreases VerticesOf(adj) - used, avail == {}
    {
      if avail == {} {
        avail := Available(emb, adjv, used);
        if avail == {} {
          EnclosedIfNoneAvailable(emb, adjv, adj, used, start);
          break;
        }
        FromFree(emb, adjv, adj, start, avail);
      } else {
        Inhabited(avail);
        var v :| v in avail;
        var u :| u in emb && (u, v) in adj;
        assert v in VerticesOf(adj) && v !in used;
        AddQubit(emb, u, v, adj);
        emb := emb + [v];
        used := used + {v};
        avail := avail - {v};
      }
    }
  }

  lemma FromFree(emb: Chain, adjv: map<int, set<int>>, adj: set<Edge>, start: set<int>, avail: set<int>)
    requires FreeNeighbours(adjv, adj, start)
    requires forall v | v in avail :: exists u :: u in emb && v in EntrySet(adjv, u)
    ensures forall v | v in avail :: exists u :: u in emb && (u, v) in adj
  {
    forall v | v in avail
      ensures exists u :: u in emb && (u, v) in adj
    {
      var u :| u in emb && v in EntrySet(adjv, u);
      assert (u, v) in adj;
    }
  }

  lemma EnclosedIfNoneAvailable(emb: Chain, adjv: map<int, set<int>>, adj: set<Edge>, used: set<int>, start: set<int>)
    requires FreeNeighbours(adjv, adj, start) && start <= used && Elements(emb) <= used
    requires forall v :: v !in used ==> !exists u :: u in emb && v in EntrySet(adjv, u)
    ensures Enclosed(emb, adj, used)
  {
    forall u, v | u in emb && (u, v) in adj
      ensures v in used
    {
      assert v !in used ==> v in EntrySet(adjv, u);
    }
  }

  lemma AddQubit(emb: Chain, u: int, v: int, adj: set<Edge>)
    requires Symmetric(adj) && ValidChain(emb, adj) && u in emb && (u, v) in adj && v !in emb
    ensures ValidChain(emb + [v], adj) && Elements(emb + [v]) == Elements(emb) + {v}
  {
    ConnectedAdd(Elements(emb), u, v, adj);
    assert Elements(emb + [v]) == Elements(emb) + {v};
    PushBack(emb, v);
  }

  /** The chains as they stand: grown ones replaced, the others as given. */
  ghost function Current(embeddings: seq<Chain>, grown: seq<Chain>): (r: seq<Chain>)
    requires |grown| == |embeddings|
    ensures |r| == |embeddings| && forall c | 0 <= c < |r| :: r[c] == if grown[c] == [] then embeddings[c] else grown[c]
  {
    seq(|embeddings|, c requires 0 <= c < |embeddings| => if grown[c] == [] then embeddings[c] else grown[c])
  }

  datatype Target = Target(variable: nat, size: real)

  lemma GrownValid(chains: seq<Chain>, c: nat, emb: Chain, used: set<int>, adj: set<Edge>)
    requires c < |chains| && ValidChains(chains, adj) && used == AllQubits(chains)
    requires ValidChain(emb, adj) && chains[c] <= emb && Elements(emb) * used == Elements(chains[c])
    ensures ValidChains(chains[c := emb], adj) && AllQubits(chains[c := emb]) == used + Elements(emb)
  {
    var r := chains[c := emb];
    forall a | 0 <= a < |r| && a != c
      ensures Elements(r[a]) !! Elements(emb)
    {
      assert Elements(chains[a]) !! Elements(chains[c]) by {
        assert a < c || c < a;
      }
      assert forall v | v in chains[a] :: v in used;
    }
    forall v
      ensures v in AllQubits(r) <==> v in used + Elements(emb)
    {
      if v in used {
        var d :| 0 <= d < |chains| && v in chains[d];
        assert v in r[d];
      }
      if v in emb {
        assert v in r[c];
      }
    }
  }

  ghost predicate Grown(embeddings: seq<Chain>, chains: seq<Chain>, target: Target, adj: set<Edge>, used: set<int>)
    requires |chains| == |embeddings| && target.variable < |embeddings|
  {
    var c := target.variable;
    && (|chains[c]| > |embeddings[c]| ==> (|chains[c]| - 1) as real < target.size)
    && (|chains[c]| as real < target.size ==> Enclosed(chains[c], adj, used))
  }

  /** The state between two targets: `chains` are the chains as they stand, targets before `t` are done. */
  ghost predicate Smearing(embeddings: seq<Chain>, targets: seq<Target>, t: nat, grown: seq<Chain>, chains: seq<Chain>, adj: set<Edge>, used: set<int>)
    requires forall s | 0 <= s < |targets| :: targets[s].variable < |embeddings|
  {
    && t <= |targets| && |grown| == |embeddings| && chains == Current(embeddings, grown)
    && ValidChains(chains, adj) && used == AllQubits(chains)
    && (forall c | 0 <= c < |embeddings| :: embeddings[c] <= chains[c])
    && (forall c | 0 <= c < |embeddings| && Unvisited(targets, t, c) :: grown[c] == [])
    && (forall s | 0 <= s < t :: Grown(embeddings, chains, targets[s], adj, used))
  }

  ghost predicate Unvisited(targets: seq<Target>, t: nat, c: nat)
    requires t <= |targets|
  {
    forall s | 0 <= s < t :: targets[s].variable != c
  }

  method SmearStep(embeddings: seq<Chain>, targets: seq<Target>, t: nat, grown0: seq<Chain>, ghost chains0: seq<Chain>, adj: set<Edge>, used0: set<int>,
                   adjv: map<int, set<int>>, ghost start: set<int>)
    returns (grown: seq<Chain>, ghost chains: seq<Chain>, used: set<int>)
    requires Symmetric(adj) && FreeNeighbours(adjv, adj, start) && start <= used0 && t < |targets|
    requires forall s | 0 <= s < |targets| :: targets[s].variable < |embeddings|
    requires forall s | 0 <= s < |targets| && s != t :: targets[s].variable != targets[t].variable
    requires Smearing(embeddings, targets, t, grown0, chains0, adj, used0)
    ensures Smearing(embeddings, targets, t + 1, grown, chains, adj, used) && used0 <= used
  {
    var c := targets[t].variable;
    BeforeStep(embeddings, targets, t, grown0, chains0, adj, used0);
    var emb;
    emb, used := GrowChain(embeddings[c], targets[t].size, adjv, used0, adj, start);
    grown := grown0[c := emb];
    chains := chains0[c := emb];
    AfterStep(embeddings, targets, t, grown0, chains0, adj, used0, emb, used);
  }

  lemma BeforeStep(embeddings: seq<Chain>, targets: seq<Target>, t: nat, grown: seq<Chain>, chains: seq<Chain>, adj: set<Edge>, used: set<int>)
    requires t < |targets| && forall s | 0 <= s < |targets| :: targets[s].variable < |embeddings|
    requires forall s | 0 <= s < |targets| && s != t :: targets[s].variable != targets[t].variable
    requires Smearing(embeddings, targets, t, grown, chains, adj, used)
    ensures var c := targets[t].variable;
            chains[c] == embeddings[c] && ValidChain(embeddings[c], adj) && Elements(embeddings[c]) <= used
  {
    var c := targets[t].variable;
    assert Unvisited(targets, t, c);
    assert forall v | v in chains[c] :: v in used;
  }

  lemma AfterStep(embeddings: seq<Chain>, targets: seq<Target>, t: nat, grown0: seq<Chain>, chains0: seq<Chain>, adj: set<Edge>, used0: set<int>,
                  emb: Chain, used: set<int>)
    requires t < |targets| && forall s | 0 <= s < |targets| :: targets[s].variable < |embeddings|
    requires forall s | 0 <= s < |targets| && s != t :: targets[s].variable != targets[t].variable
    requires Smearing(embeddings, targets, t, grown0, chains0, adj, used0)
    requires var c := targets[t].variable;
             embeddings[c] <= emb && ValidChain(emb, adj) && used == used0 + Elements(emb) && Elements(emb) * used0 == Elements(embeddings[c])
    requires var c := targets[t].variable;
             (|emb| > |embeddings[c]| ==> (|emb| - 1) as real < targets[t].size) && (|emb| as real < targets[t].size ==> Enclosed(emb, adj, used))
    ensures var c := targets[t].variable; Smearing(embeddings, targets, t + 1, grown0[c := emb], chains0[c := emb], adj, used)
  {
    var c := targets[t].variable;
    BeforeStep(embeddings, targets, t, grown0, chains0, adj, used0);
    GrownValid(chains0, c, emb, used0, adj);
    StepGrown(embeddings, targets, t, chains0, adj, used0, emb, used);
    StepSmearing(embeddings, targets, t, t + 1, grown0, chains0, adj, used0, emb, used, grown0[c := emb], chains0[c := emb]);
  }

  lemma StepSmearing(embeddings: seq<Chain>, targets: seq<Target>, t: nat, next: nat, grown0: seq<Chain>, chains0: seq<Chain>, adj: set<Edge>, used0: set<int>,
                     emb: Chain, used: set<int>, grown: seq<Chain>, chains: seq<Chain>)
    requires t < |targets| && next == t + 1 && forall s | 0 <= s < |targets| :: targets[s].variable < |embeddings|
    requires Smearing(embeddings, targets, t, grown0, chains0, adj, used0)
    requires emb != [] && embeddings[targets[t].variable] <= emb
    requires grown == grown0[targets[t].variable := emb] && chains == chains0[targets[t].variable := emb]
    requires ValidChains(chains, adj) && used == AllQubits(chains)
    requires forall s | 0 <= s < next :: Grown(embeddings, chains, targets[s], adj, used)
    ensures Smearing(embeddings, targets, next, grown, chains, adj, used)
  {
    assert chains == Current(embeddings, grown);
    forall d | 0 <= d < |embeddings| && Unvisited(targets, next, d)
      ensures grown[d] == []
    {
      assert Unvisited(targets, t, d) && d != targets[t].variable;
    }
  }

  lemma StepGrown(embeddings: seq<Chain>, targets: seq<Target>, t: nat, chains0: seq<Chain>, adj: set<Edge>, used0: set<int>, emb: Chain, used: set<int>)
    requires t < |targets| && |chains0| == |embeddings| && forall s | 0 <= s < |targets| :: targets[s].variable < |embeddings|
    requires forall s | 0 <= s < |targets| && s != t :: targets[s].variable != targets[t].variable
    requires forall s | 0 <= s < t :: Grown(embeddings, chains0, targets[s], adj, used0)
    requires used0 <= used && Grown(embeddings, chains0[targets[t].variable := emb], targets[t], adj, used)
    ensures forall s | 0 <= s < t + 1 :: Grown(embeddings, chains0[targets[t].variable := emb], targets[s], adj, used)
  {
    var chains := chains0[targets[t].variable := emb];
    forall s | 0 <= s < t
      ensures Grown(embeddings, chains, targets[s], adj, used)
    {
      assert Grown(embeddings, chains0, targets[s], adj, used0);
      assert chains[targets[s].variable] == chains0[targets[s].variable];
    }
  }

  method FillRest(embeddings: seq<Chain>, grown: seq<Chain>) returns (newEmbeddings: seq<Chain>)
    requires |grown| == |embeddings|
    ensures newEmbeddings == Current(embeddings, grown)
  {
    newEmbeddings := grown;
    for c := 0 to |newEmbeddings|
      invariant |newEmbeddings| == |embeddings|
      invariant forall d | 0 <= d < |embeddings| :: newEmbeddings[d] == if d < c then Current(embeddings, grown)[d] else grown[d]
    {
      if newEmbeddings[c] == [] {
        newEmbeddings := newEmbeddings[c := embeddings[c]];
      }
    }
  }

  /** Chains only gain qubits; those without a target stay as they are, the others grow to it or until they are enclosed. */
  ghost predicate Smeared(before: seq<Chain>, after: seq<Chain>, adj: set<Edge>, targets: seq<Target>)
  {
    && (forall t | 0 <= t < |targets| :: targets[t].variable < |before|)
    && |after| == |before| && (forall c | 0 <= c < |before| :: before[c] <= after[c])
    && (forall c | 0 <= c < |before| && Unvisited(targets, |targets|, c) :: after[c] == before[c])
    && (forall t | 0 <= t < |targets| :: Grown(before, after, targets[t], adj, AllQubits(after)))
  }

  /** A valid embedding stays valid and chains only gain qubits. A chain that stays below its target has no
  unused neighbour left, none grows past its target, and chains without a target stay as they are. */
  method SmearEmbedding(embeddings: seq<Chain>, adj: set<Edge>, targets: seq<Target>) returns (newEmbeddings: seq<Chain>)
    requires Symmetric(adj) && ValidChains(embeddings, adj)
    requires forall t | 0 <= t < |targets| :: targets[t].variable < |embeddings|
    requires forall s, t | 0 <= s < |targets| && 0 <= t < |targets| && s != t :: targets[s].variable != targets[t].variable
    ensures ValidChains(newEmbeddings, adj) && Smeared(embeddings, newEmbeddings, adj, targets)
  {
    var used := UsedQubits(embeddings);
    ghost var start := used;
    var adjv := BuildFreeNeighbours(adj, used);
    var grown: seq<Chain> := seq(|embeddings|, _ => []);
    ghost var chains := embeddings;
    assert chains == Current(embeddings, grown);
    for t := 0 to |targets|
      invariant Smearing(embeddings, targets, t, grown, chains, adj, used) && start <= used
    {
      grown, chains, used := SmearStep(embeddings, targets, t, grown, chains, adj, used, adjv, start);
    }
    newEmbeddings := FillRest(embeddings, grown);
  }

  /** Supersets keep their couplers. */
  lemma SmearKeepsCouplers(embeddings: seq<Chain>, newEmbeddings: seq<Chain>, j: map<Edge, real>, adj: set<Edge>)
    requires |newEmbeddings| == |embeddings| && AllCoupled(embeddings, j, adj)
    requires forall c | 0 <= c < |embeddings| :: embeddings[c] <= newEmbeddings[c]
    ensures AllCoupled(newEmbeddings, j, adj)
  {
    forall e: Edge | e in j && j[e] != 0.0
      ensures Coupled(newEmbeddings[e.0], newEmbeddings[e.1], adj)
    {
      assert Coupled(embeddings[e.0], embeddings[e.1], adj);
      var u, v :| u in embeddings[e.0] && v in embeddings[e.1] && (u, v) in adj;
      assert u in newEmbeddings[e.0] && v in newEmbeddings[e.1];
    }
  }
}
