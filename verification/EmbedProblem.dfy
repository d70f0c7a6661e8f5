/** Spreading an Ising problem over the chains of an embedding. */
module EmbeddedProblems {
  import opened Results
  import opened Sums
  import opened Queues
  import opened IsingProblems
  import opened Chains
  import opened EmbeddingCleaning
  import opened EmbeddingSmearing

  /** `jc` holds the edges inside chains, in ascending form. */
  datatype EmbeddedProblem = EmbeddedProblem(h: seq<real>, j: map<Edge, real>, jc: set<Edge>)

  /** All qubits of the chain have spin `y`. */
  ghost predicate Constant(chain: Chain, s: Spins, y: real) {
    forall q | q in chain :: s(q) == y
  }

  /** Chain c is constant at the spin of variable c. */
  ghost predicate ChainsFollow(embeddings: seq<Chain>, s: Spins, x: Spins) {
    forall c | 0 <= c < |embeddings| :: Constant(embeddings[c], s, x(c))
  }

  // ---------------------------------------------------------------- fields

  /** `k` equal parts `v` of a coefficient, each at spin `y`. */
  ghost function Shares(v: real, k: nat, y: real): real {
    if k == 0 then 0.0 else Shares(v, k - 1, y) + v * y
  }

  lemma {:induction false} SharesProduct(v: real, k: nat, y: real)
    ensures Shares(v, k, y) == k as real * (v * y)
  {
    if k > 0 {
      SharesProduct(v, k - 1, y);
      Distribute(v * y, (k - 1) as real, 1.0);
    }
  }

  lemma AllShares(total: real, n: nat, y: real)
    requires n > 0
    ensures Shares(total / n as real, n, y) == total * y
  {
    var m, v := n as real, total / n as real;
    SharesProduct(v, n, y);
    assert m * v == total;
    assert m * (v * y) == (m * v) * y;
  }

  /** One of `n` equal parts. */
  function Part(total: real, n: nat): real {
    if n == 0 then 0.0 else total / n as real
  }

  lemma PartsAddUp(total: real, n: nat)
    requires n > 0
    ensures n as real * Part(total, n) == total
  {
  }

  ghost predicate ZeroAt(h: seq<real>, chain: Chain, from: nat) {
    forall k | from <= k < |chain| :: 0 <= chain[k] < |h| && h[chain[k]] == 0.0
  }

  method FillChain(h0: seq<real>, chain: Chain, v: real) returns (h: seq<real>)
    requires Distinct(chain) && ZeroAt(h0, chain, 0)
    ensures |h| == |h0| && forall q | 0 <= q < |h| :: h[q] == if q in chain then v else h0[q]
    ensures forall s: Spins, y | Constant(chain, s, y) :: LinearEnergy(h, s) == LinearEnergy(h0, s) + Shares(v, |chain|, y)
  {
    h := h0;
    for k := 0 to |chain|
      invariant |h| == |h0| && forall q | 0 <= q < |h| :: h[q] == if q in chain[..k] then v else h0[q]
      invariant ZeroAt(h, chain, k)
      invariant forall s: Spins, y | Constant(chain, s, y) :: LinearEnergy(h, s) == LinearEnergy(h0, s) + Shares(v, k, y)
    {
      FillNext(h0, h, chain, k, v);
      assert chain[..k + 1] == chain[..k] + [chain[k]];
      h := h[chain[k] := v];
    }
    assert chain[..|chain|] == chain;
  }

  lemma FillNext(h0: seq<real>, h: seq<real>, chain: Chain, k: nat, v: real)
    requires k < |chain| && ZeroAt(h, chain, k)
    requires forall s: Spins, y | Constant(chain, s, y) :: LinearEnergy(h, s) == LinearEnergy(h0, s) + Shares(v, k, y)
    ensures forall s: Spins, y | Constant(chain, s, y) :: LinearEnergy(h[chain[k] := v], s) == LinearEnergy(h0, s) + Shares(v, k + 1, y)
  {
    assert chain[k] in chain;
    forall s: Spins, y | Constant(chain, s, y)
      ensures LinearEnergy(h[chain[k] := v], s) == LinearEnergy(h0, s) + Shares(v, k + 1, y)
    {
      FillAt(h, chain[k], v, s, y);
    }
  }

  lemma FillAt(h: seq<real>, q: nat, v: real, s: Spins, y: real)
    requires q < |h| && h[q] == 0.0 && s(q) == y
    ensures LinearEnergy(h[q := v], s) == LinearEnergy(h, s) + v * y
  {
    LinearEnergyPut(h, q, v, s);
  }

  /** Only qubits of the first chains have a field. */
  ghost predicate ZeroOutside(h: seq<real>, embeddings: seq<Chain>, n: nat) {
    forall q, c | 0 <= q < |h| && n <= c < |embeddings| && q in embeddings[c] :: h[q] == 0.0
  }

  ghost predicate ChainField(h0: seq<real>, chain: Chain, v: real) {
    forall q | q in chain :: 0 <= q < |h0| && h0[q] == v
  }

  /** Qubits of the first chains have an equal part of the field of their variable, all others nothing. */
  ghost predicate FieldsSpread(h0: seq<real>, embeddings: seq<Chain>, h: seq<real>, n: nat)
    requires n <= |embeddings|
  {
    && (forall c | 0 <= c < n :: ChainField(h0, embeddings[c], Part(FieldAt(h, c), |embeddings[c]|)))
    && (forall q | 0 <= q < |h0| && (forall c | 0 <= c < n :: q !in embeddings[c]) :: h0[q] == 0.0)
  }

  lemma NoFields(n: nat, s: Spins)
    ensures LinearEnergy(seq(n, _ => 0.0), s) == 0.0
  {
    LinearEnergyZeros([], n, s);
    assert [] + seq(n, _ => 0.0) == seq(n, _ => 0.0);
  }

  /** The fields of the first chains are those of the first variables. */
  ghost predicate FieldsTo(h: seq<real>, embeddings: seq<Chain>, h0: seq<real>, i: nat)
    requires i <= |h|
  {
    forall s: Spins, x: Spins | ChainsFollow(embeddings, s, x) :: LinearEnergy(h0, s) == LinearEnergy(h[..i], x)
  }

  method SpreadFields(h: seq<real>, embeddings: seq<Chain>, adj: set<Edge>, adjSize: nat) returns (h0: seq<real>)
    requires |h| == |embeddings| && ValidChains(embeddings, adj) && Vertices(adj, adjSize)
    ensures |h0| == adjSize && FieldsSpread(h0, embeddings, h, |embeddings|)
    ensures forall s: Spins, x: Spins | ChainsFollow(embeddings, s, x) :: LinearEnergy(h0, s) == LinearEnergy(h, x)
  {
    h0 := seq(adjSize, _ => 0.0);
    forall s: Spins
      ensures LinearEnergy(h0, s) == 0.0
    {
      NoFields(adjSize, s);
    }
    for i := 0 to |embeddings|
      invariant |h0| == adjSize && ZeroOutside(h0, embeddings, i) && FieldsSpread(h0, embeddings, h, i)
      invariant FieldsTo(h, embeddings, h0, i)
    {
      ghost var before := h0;
      ChainIsZero(before, embeddings, i, adj);
      h0 := FillChain(h0, embeddings[i], h[i] / |embeddings[i]| as real);
      FieldsNext(h, embeddings, before, h0, i);
      SpreadNextChain(before, h0, embeddings, h, i, adj);
      StillZero(before, h0, embeddings, i);
    }
    assert h[..|h|] == h;
  }

  lemma FieldsNext(h: seq<real>, embeddings: seq<Chain>, before: seq<real>, h0: seq<real>, i: nat)
    requires i < |h| == |embeddings| && FieldsTo(h, embeddings, before, i) && embeddings[i] != []
    requires forall s: Spins, y | Constant(embeddings[i], s, y) ::
               LinearEnergy(h0, s) == LinearEnergy(before, s) + Shares(h[i] / |embeddings[i]| as real, |embeddings[i]|, y)
    ensures FieldsTo(h, embeddings, h0, i + 1)
  {
    var now := h[..i + 1];
    assert now[..i] == h[..i];
    forall s: Spins, x: Spins | ChainsFollow(embeddings, s, x)
      ensures LinearEnergy(h0, s) == LinearEnergy(now, x)
    {
      assert Constant(embeddings[i], s, x(i));
      AllShares(h[i], |embeddings[i]|, x(i));
    }
  }

  lemma ChainIsZero(h: seq<real>, embeddings: seq<Chain>, i: nat, adj: set<Edge>)
    requires i < |embeddings| && ZeroOutside(h, embeddings, i) && ValidChains(embeddings, adj) && Vertices(adj, |h|)
    ensures ZeroAt(h, embeddings[i], 0)
  {
    forall k | 0 <= k < |embeddings[i]|
      ensures 0 <= embeddings[i][k] < |h| && h[embeddings[i][k]] == 0.0
    {
      var v := embeddings[i][k];
      assert v in embeddings[i] && (v, v) in adj;
    }
  }

  lemma InsideChain(h: seq<real>, chain: Chain, q: int)
    requires ZeroAt(h, chain, 0) && q in chain
    ensures 0 <= q < |h|
  {
    var k :| 0 <= k < |chain| && chain[k] == q;
  }

  lemma SpreadNextChain(before: seq<real>, h0: seq<real>, embeddings: seq<Chain>, h: seq<real>, i: nat, adj: set<Edge>)
    requires i < |embeddings| == |h| && |h0| == |before| && embeddings[i] != [] && Disjoint(embeddings)
    requires ZeroAt(before, embeddings[i], 0) && FieldsSpread(before, embeddings, h, i)
    requires forall q | 0 <= q < |h0| :: h0[q] == if q in embeddings[i] then h[i] / |embeddings[i]| as real else before[q]
    ensures FieldsSpread(h0, embeddings, h, i + 1)
  {
    forall c | 0 <= c < i + 1
      ensures ChainField(h0, embeddings[c], Part(FieldAt(h, c), |embeddings[c]|))
    {
      forall q | q in embeddings[c]
        ensures 0 <= q < |h0| && h0[q] == Part(FieldAt(h, c), |embeddings[c]|)
      {
        if c == i {
          InsideChain(before, embeddings[i], q);
        } else if q in embeddings[i] {
          SameChain(embeddings, c, i, q);
        } else {
          assert ChainField(before, embeddings[c], Part(FieldAt(h, c), |embeddings[c]|));
        }
      }
    }
    forall q | 0 <= q < |h0| && (forall c | 0 <= c < i + 1 :: q !in embeddings[c])
      ensures h0[q] == 0.0
    {
      assert q !in embeddings[i];
    }
  }

  lemma StillZero(before: seq<real>, h: seq<real>, embeddings: seq<Chain>, i: nat)
    requires i < |embeddings| && Disjoint(embeddings) && |h| == |before| && ZeroOutside(before, embeddings, i)
    requires forall q | 0 <= q < |h| && q !in embeddings[i] :: h[q] == before[q]
    ensures ZeroOutside(h, embeddings, i + 1)
  {
    forall q, c | 0 <= q < |h| && i + 1 <= c < |embeddings| && q in embeddings[c]
      ensures h[q] == 0.0
    {
      assert q in Elements(embeddings[c]) && Elements(embeddings[i]) !! Elements(embeddings[c]);
    }
  }

  // ---------------------------------------------------------------- couplings

  /** The edge has one end in each chain. */
  ghost predicate Joins(e: Edge, a: Chain, b: Chain) {
    (e.0 in a && e.1 in b) || (e.1 in a && e.0 in b)
  }

  function Norm(u: int, v: int): Edge {
    if u > v then (v, u) else (u, v)
  }

  /** The ascending edges of the hardware graph between two chains. */
  ghost function Couplers(a: Chain, b: Chain, adj: set<Edge>): (es: set<Edge>)
    ensures forall e :: e in es <==> e in adj && e.0 < e.1 && Joins(e, a, b)
  {
    set e | e in adj && e.0 < e.1 && Joins(e, a, b)
  }

  /** All couplers between two chains, each once. */
  method CouplerPairs(a: Chain, b: Chain, adj: set<Edge>) returns (jPairs: seq<Edge>)
    requires Distinct(a) && Distinct(b) && Elements(a) !! Elements(b) && Symmetric(adj)
    ensures Distinct(jPairs) && forall e :: e in jPairs <==> e in Couplers(a, b, adj)
  {
    jPairs := [];
    for k := 0 to |a|
      invariant Distinct(jPairs) && forall e :: e in jPairs <==> e in Couplers(a[..k], b, adj)
    {
      jPairs := PairsOf(a, k, b, adj, jPairs);
    }
    assert a[..|a|] == a;
  }

  method PairsOf(a: Chain, k: nat, b: Chain, adj: set<Edge>, pairs0: seq<Edge>) returns (pairs: seq<Edge>)
    requires k < |a| && Distinct(a) && Distinct(b) && Elements(a) !! Elements(b) && Symmetric(adj)
    requires Distinct(pairs0) && forall e :: e in pairs0 <==> e in Couplers(a[..k], b, adj)
    ensures Distinct(pairs) && forall e :: e in pairs <==> e in Couplers(a[..k + 1], b, adj)
  {
    pairs := pairs0;
    for l := 0 to |b|
      invariant Distinct(pairs)
      invariant forall e :: e in pairs <==> e in Couplers(a[..k], b, adj) || e in Couplers([a[k]], b[..l], adj)
    {
      assert a[k] in Elements(a) && b[l] in Elements(b);
      NextPartner(a[k], b, l, adj);
      if (a[k], b[l]) in adj {
        var p := Norm(a[k], b[l]);
        NewPair(a, k, b, l, pairs);
        PushBack(pairs, p);
        pairs := pairs + [p];
      }
    }
    NextOfChain(a, k, b, adj);
    assert b[..|b|] == b;
  }

  lemma NextPartner(u: int, b: Chain, l: nat, adj: set<Edge>)
    requires l < |b| && Symmetric(adj) && u != b[l]
    ensures forall e :: e in Couplers([u], b[..l + 1], adj) <==>
              e in Couplers([u], b[..l], adj) || ((u, b[l]) in adj && e == Norm(u, b[l]))
  {
    assert b[..l + 1] == b[..l] + [b[l]];
  }

  lemma NextOfChain(a: Chain, k: nat, b: Chain, adj: set<Edge>)
    requires k < |a|
    ensures forall e :: e in Couplers(a[..k + 1], b, adj) <==> e in Couplers(a[..k], b, adj) || e in Couplers([a[k]], b, adj)
  {
    assert a[..k + 1] == a[..k] + [a[k]];
  }

  lemma NewPair(a: Chain, k: nat, b: Chain, l: nat, pairs: seq<Edge>)
    requires k < |a| && l < |b| && Distinct(a) && Distinct(b) && Elements(a) !! Elements(b)
    requires forall e | e in pairs :: Joins(e, a[..k], b) || Joins(e, [a[k]], b[..l])
    ensures Norm(a[k], b[l]) !in pairs
  {
    assert a[k] in Elements(a) && b[l] in Elements(b);
    assert a[k] !in a[..k] && b[l] !in b[..l];
    assert forall v | v in a[..k] :: v in Elements(a);
    assert forall v | v in b[..l] :: v in Elements(b);
    assert forall v | v in b :: v in Elements(b);
    assert !Joins(Norm(a[k], b[l]), a[..k], b) && !Joins(Norm(a[k], b[l]), [a[k]], b[..l]);
  }

  /** The spins of any two qubits, one of each chain, have the product `w`. */
  ghost predicate ConstantPair(a: Chain, b: Chain, s: Spins, w: real) {
    forall u, v | u in a && v in b :: s(u) * s(v) == w && s(v) * s(u) == w
  }

  lemma ConstantPairOf(a: Chain, b: Chain, s: Spins, y: real, z: real)
    requires Constant(a, s, y) && Constant(b, s, z)
    ensures ConstantPair(a, b, s, y * z)
  {
    forall u, v | u in a && v in b
      ensures s(u) * s(v) == y * z && s(v) * s(u) == y * z
    {
      assert s(u) == y && s(v) == z;
    }
  }

  /** Spreads one coupling evenly over the couplers between its two chains. */
  method SpreadCoupling(j0: map<Edge, real>, a: Chain, b: Chain, adj: set<Edge>, value: real) returns (j: map<Edge, real>)
    requires Distinct(a) && Distinct(b) && Elements(a) !! Elements(b) && Coupled(a, b, adj) && Symmetric(adj)
    requires forall e: Edge | e in j0 :: !Joins(e, a, b)
    ensures SpreadEvenly(j, j0, Couplers(a, b, adj), value)
    ensures forall s: Spins, w | ConstantPair(a, b, s, w) :: WeightedSum(j, Both(s)) == WeightedSum(j0, Both(s)) + value * w
  {
    var jPairs := CouplerPairs(a, b, adj);
    CoupledPairs(a, b, adj, jPairs);
    var embJ := value / |jPairs| as real;
    j := SetAll(j0, jPairs, embJ, a, b);
    PartOfEach(j, j0, jPairs, Couplers(a, b, adj), value);
    forall s: Spins, w | ConstantPair(a, b, s, w)
      ensures WeightedSum(j, Both(s)) == WeightedSum(j0, Both(s)) + value * w
    {
      AllShares(value, |jPairs|, w);
    }
  }

  /** The couplers have an equal part of the value, and all else is unchanged. */
  ghost predicate SpreadEvenly(j: map<Edge, real>, j0: map<Edge, real>, couplers: set<Edge>, value: real) {
    && j.Keys == j0.Keys + couplers
    && (forall e | e in couplers :: j[e] == Part(value, |couplers|))
    && (forall e | e in j0 && e !in couplers :: j[e] == j0[e])
  }

  lemma PartOfEach(j: map<Edge, real>, j0: map<Edge, real>, pairs: seq<Edge>, couplers: set<Edge>, value: real)
    requires Distinct(pairs) && (forall e :: e in pairs <==> e in couplers) && pairs != []
    requires forall e: Edge :: e in j <==> e in j0 || e in pairs
    requires forall e: Edge | e in j :: j[e] == if e in pairs then value / |pairs| as real else j0[e]
    ensures SpreadEvenly(j, j0, couplers, value)
  {
    PairCount(pairs, couplers);
  }

  lemma CoupledPairs(a: Chain, b: Chain, adj: set<Edge>, jPairs: seq<Edge>)
    requires Coupled(a, b, adj) && Symmetric(adj) && Elements(a) !! Elements(b)
    requires forall e :: e in jPairs <==> e in Couplers(a, b, adj)
    ensures jPairs != []
  {
    var u, v :| u in a && v in b && (u, v) in adj;
    assert u in Elements(a) && v in Elements(b);
    assert Norm(u, v) in Couplers(a, b, adj);
  }

  lemma {:induction false} PairCount(pairs: seq<Edge>, es: set<Edge>)
    requires Distinct(pairs) && forall e :: e in pairs <==> e in es
    ensures |es| == |pairs|
  {
    if pairs == [] {
      assert es == {};
    } else {
      var l := |pairs| - 1;
      assert pairs == pairs[..l] + [pairs[l]];
      PairCount(pairs[..l], es - {pairs[l]});
    }
  }

  method SetAll(j0: map<Edge, real>, jPairs: seq<Edge>, embJ: real, ghost a: Chain, ghost b: Chain) returns (j: map<Edge, real>)
    requires Distinct(jPairs) && forall e | e in jPairs :: Joins(e, a, b) && e !in j0
    ensures forall e: Edge :: e in j <==> e in j0 || e in jPairs
    ensures forall e: Edge | e in j :: j[e] == if e in jPairs then embJ else j0[e]
    ensures forall s: Spins, w | ConstantPair(a, b, s, w) :: WeightedSum(j, Both(s)) == WeightedSum(j0, Both(s)) + Shares(embJ, |jPairs|, w)
  {
    j := j0;
    for k := 0 to |jPairs|
      invariant forall e: Edge :: e in j <==> e in j0 || e in jPairs[..k]
      invariant forall e: Edge | e in j :: j[e] == if e in jPairs[..k] then embJ else j0[e]
      invariant forall s: Spins, w | ConstantPair(a, b, s, w) :: WeightedSum(j, Both(s)) == WeightedSum(j0, Both(s)) + Shares(embJ, k, w)
    {
      var p := jPairs[k];
      assert p in jPairs && p !in jPairs[..k];
      assert p !in j;
      SpreadNext(j0, j, p, k, embJ, a, b);
      j := j[p := embJ];
      assert jPairs[..k + 1] == jPairs[..k] + [p];
    }
    assert jPairs[..|jPairs|] == jPairs;
  }

  lemma SpreadNext(j0: map<Edge, real>, j: map<Edge, real>, p: Edge, k: nat, v: real, a: Chain, b: Chain)
    requires p !in j && Joins(p, a, b)
    requires forall s: Spins, w | ConstantPair(a, b, s, w) :: WeightedSum(j, Both(s)) == WeightedSum(j0, Both(s)) + Shares(v, k, w)
    ensures forall s: Spins, w | ConstantPair(a, b, s, w) :: WeightedSum(j[p := v], Both(s)) == WeightedSum(j0, Both(s)) + Shares(v, k + 1, w)
  {
    forall s: Spins, w | ConstantPair(a, b, s, w)
      ensures WeightedSum(j[p := v], Both(s)) == WeightedSum(j0, Both(s)) + Shares(v, k + 1, w)
    {
      CouplerSet(j, p, v, a, b, s, w);
    }
  }

  lemma CouplerSet(j: map<Edge, real>, p: Edge, v: real, a: Chain, b: Chain, s: Spins, w: real)
    requires p !in j && Joins(p, a, b) && ConstantPair(a, b, s, w)
    ensures WeightedSum(j[p := v], Both(s)) == WeightedSum(j, Both(s)) + v * w
  {
    WeightedSumPut(j, p, v, Both(s));
    var q, r := p.0, p.1;
    assert (q in a && r in b) || (r in a && q in b);
    assert Both(s)(p) == w;
  }

  /** The couplers between the chains of a coupling. */
  ghost function CouplersOf(f: Edge, embeddings: seq<Chain>, adj: set<Edge>): (es: set<Edge>)
    ensures f.0 < 0 || f.1 < 0 || f.0 >= |embeddings| || f.1 >= |embeddings| ==> es == {}
  {
    if 0 <= f.0 < |embeddings| && 0 <= f.1 < |embeddings| then Couplers(embeddings[f.0], embeddings[f.1], adj) else {}
  }

  /** The couplers of every coupling that is not to be done any more have an equal part of it, and there are no others. */
  ghost predicate Spread(j0: map<Edge, real>, j: map<Edge, real>, todo: set<Edge>, embeddings: seq<Chain>, adj: set<Edge>) {
    && (forall f, e | f in j && f !in todo && e in CouplersOf(f, embeddings, adj) ::
          e in j0 && j0[e] == Part(j[f], |CouplersOf(f, embeddings, adj)|))
    && (forall e | e in j0 :: exists f :: f in j && f !in todo && e in CouplersOf(f, embeddings, adj))
  }

  lemma SameChain(embeddings: seq<Chain>, c: int, d: int, w: int)
    requires Disjoint(embeddings) && 0 <= c < |embeddings| && 0 <= d < |embeddings| && w in embeddings[c] && w in embeddings[d]
    ensures c == d
  {
    assert w in Elements(embeddings[c]) && w in Elements(embeddings[d]);
  }

  lemma JoinsOne(e: Edge, f: Edge, g: Edge, embeddings: seq<Chain>)
    requires Disjoint(embeddings) && 0 <= f.0 < f.1 < |embeddings| && 0 <= g.0 < g.1 < |embeddings|
    requires Joins(e, embeddings[f.0], embeddings[f.1]) && Joins(e, embeddings[g.0], embeddings[g.1])
    ensures f == g
  {
    var u, v := e.0, e.1;
    forall c, d, w | 0 <= c < |embeddings| && 0 <= d < |embeddings| && w in embeddings[c] && w in embeddings[d]
      ensures c == d
    {
      SameChain(embeddings, c, d, w);
    }
    assert (u in embeddings[f.0] && v in embeddings[f.1]) || (v in embeddings[f.0] && u in embeddings[f.1]);
    assert (u in embeddings[g.0] && v in embeddings[g.1]) || (v in embeddings[g.0] && u in embeddings[g.1]);
  }

  /** What is spread and what is still to be spread add up to the logical couplings. */
  ghost predicate Balanced(j: map<Edge, real>, embeddings: seq<Chain>, j0: map<Edge, real>, todo: map<Edge, real>) {
    forall s: Spins, x: Spins | ChainsFollow(embeddings, s, x) ::
      WeightedSum(j0, Both(s)) + WeightedSum(todo, Both(x)) == WeightedSum(j, Both(x))
  }

  lemma BalancedStart(j: map<Edge, real>, embeddings: seq<Chain>)
    ensures Balanced(j, embeddings, map[], j)
  {
    forall s: Spins, x: Spins | ChainsFollow(embeddings, s, x)
      ensures WeightedSum(map[], Both(s)) + WeightedSum(j, Both(x)) == WeightedSum(j, Both(x))
    {
      WeightedSumEmpty(Both(s));
    }
  }

  lemma BalancedEnd(j: map<Edge, real>, embeddings: seq<Chain>, j0: map<Edge, real>)
    requires Balanced(j, embeddings, j0, map[])
    ensures forall s: Spins, x: Spins | ChainsFollow(embeddings, s, x) :: WeightedSum(j0, Both(s)) == WeightedSum(j, Both(x))
  {
    forall s: Spins, x: Spins | ChainsFollow(embeddings, s, x)
      ensures WeightedSum(j0, Both(s)) == WeightedSum(j, Both(x))
    {
      WeightedSumEmpty(Both(x));
    }
  }

  method SpreadCouplings(p: IsingProblem, embeddings: seq<Chain>, adj: set<Edge>) returns (j0: map<Edge, real>)
    requires p.Valid() && |p.h| == |embeddings| && AllCoupled(embeddings, p.j, adj) && Symmetric(adj)
    requires Disjoint(embeddings) && forall c | 0 <= c < |embeddings| :: Distinct(embeddings[c])
    ensures Spread(j0, p.j, {}, embeddings, adj)
    ensures forall s: Spins, x: Spins | ChainsFollow(embeddings, s, x) :: WeightedSum(j0, Both(s)) == WeightedSum(p.j, Both(x))
  {
    j0 := map[];
    var todo := p.j;
    BalancedStart(p.j, embeddings);
    while todo != map[]
      invariant forall e: Edge | e in todo :: e in p.j && todo[e] == p.j[e]
      invariant Spread(j0, p.j, todo.Keys, embeddings, adj)
      invariant Balanced(p.j, embeddings, j0, todo)
      decreases |todo|
    {
      var f: Edge :| f in todo;
      j0, todo := SpreadOne(p, embeddings, adj, j0, todo, f);
    }
    BalancedEnd(p.j, embeddings, j0);
  }

  method SpreadOne(p: IsingProblem, embeddings: seq<Chain>, adj: set<Edge>, before: map<Edge, real>, todo0: map<Edge, real>, f: Edge)
    returns (j0: map<Edge, real>, todo: map<Edge, real>)
    requires p.Valid() && |p.h| == |embeddings| && AllCoupled(embeddings, p.j, adj) && Symmetric(adj)
    requires Disjoint(embeddings) && forall c | 0 <= c < |embeddings| :: Distinct(embeddings[c])
    requires f in todo0 && f in p.j && todo0[f] == p.j[f]
    requires Spread(before, p.j, todo0.Keys, embeddings, adj)
    requires Balanced(p.j, embeddings, before, todo0)
    ensures todo == todo0 - {f} && |todo| < |todo0|
    ensures Spread(j0, p.j, todo.Keys, embeddings, adj)
    ensures Balanced(p.j, embeddings, j0, todo)
  {
    var a, b := embeddings[f.0], embeddings[f.1];
    var value := p.j[f];
    SpreadElsewhere(p.j, embeddings, adj, before, todo0.Keys, f);
    assert Coupled(a, b, adj);
    j0 := SpreadCoupling(before, a, b, adj, value);
    todo := todo0 - {f};
    assert todo.Keys == todo0.Keys - {f};
    SpreadGrows(p.j, embeddings, adj, before, todo0.Keys, f, j0);
    BalancedNext(p.j, embeddings, before, todo0, f, value, j0);
  }

  /** The couplers of one coupling are not those of another. */
  lemma CouplersApart(embeddings: seq<Chain>, adj: set<Edge>, f: Edge, g: Edge, e: Edge)
    requires Disjoint(embeddings) && 0 <= f.0 < f.1 < |embeddings| && 0 <= g.0 < g.1 < |embeddings|
    requires Joins(e, embeddings[f.0], embeddings[f.1]) && e in CouplersOf(g, embeddings, adj)
    ensures f == g
  {
    JoinsOne(e, f, g, embeddings);
  }

  lemma SpreadElsewhere(j: map<Edge, real>, embeddings: seq<Chain>, adj: set<Edge>, before: map<Edge, real>, todo: set<Edge>, f: Edge)
    requires Disjoint(embeddings) && f in todo && f in j && forall g: Edge | g in j :: 0 <= g.0 < g.1 < |embeddings|
    requires Spread(before, j, todo, embeddings, adj)
    ensures forall e: Edge | e in before :: !Joins(e, embeddings[f.0], embeddings[f.1])
  {
    forall e: Edge | e in before
      ensures !Joins(e, embeddings[f.0], embeddings[f.1])
    {
      var g: Edge :| g in j && g !in todo && e in CouplersOf(g, embeddings, adj);
      if Joins(e, embeddings[f.0], embeddings[f.1]) {
        CouplersApart(embeddings, adj, f, g, e);
      }
    }
  }

  lemma SpreadGrows(j: map<Edge, real>, embeddings: seq<Chain>, adj: set<Edge>, before: map<Edge, real>, todo: set<Edge>, f: Edge,
                    after: map<Edge, real>)
    requires Disjoint(embeddings) && f in todo && f in j && forall g: Edge | g in j :: 0 <= g.0 < g.1 < |embeddings|
    requires Spread(before, j, todo, embeddings, adj)
    requires SpreadEvenly(after, before, CouplersOf(f, embeddings, adj), j[f])
    ensures Spread(after, j, todo - {f}, embeddings, adj)
  {
    forall g, e | g in j && g !in todo - {f} && e in CouplersOf(g, embeddings, adj)
      ensures e in after && after[e] == Part(j[g], |CouplersOf(g, embeddings, adj)|)
    {
      PartStays(j, embeddings, adj, before, todo, f, after, g, e);
    }
    forall e | e in after
      ensures exists g :: g in j && g !in todo - {f} && e in CouplersOf(g, embeddings, adj)
    {
      var g := WhoseCoupler(j, embeddings, adj, before, todo, f, after, e);
    }
  }

  lemma PartStays(j: map<Edge, real>, embeddings: seq<Chain>, adj: set<Edge>, before: map<Edge, real>, todo: set<Edge>, f: Edge,
                  after: map<Edge, real>, g: Edge, e: Edge)
    requires Disjoint(embeddings) && f in todo && f in j && forall d: Edge | d in j :: 0 <= d.0 < d.1 < |embeddings|
    requires Spread(before, j, todo, embeddings, adj)
    requires SpreadEvenly(after, before, CouplersOf(f, embeddings, adj), j[f])
    requires g in j && (g == f || g !in todo) && e in CouplersOf(g, embeddings, adj)
    ensures e in after && after[e] == Part(j[g], |CouplersOf(g, embeddings, adj)|)
  {
    if g != f {
      NotShared(embeddings, adj, f, g, e);
      UnchangedPart(after, before, CouplersOf(f, embeddings, adj), j[f], e);
    }
  }

  lemma NotShared(embeddings: seq<Chain>, adj: set<Edge>, f: Edge, g: Edge, e: Edge)
    requires Disjoint(embeddings) && 0 <= f.0 < f.1 < |embeddings| && 0 <= g.0 < g.1 < |embeddings|
    requires f != g && e in CouplersOf(g, embeddings, adj)
    ensures e !in CouplersOf(f, embeddings, adj)
  {
    if e in CouplersOf(f, embeddings, adj) {
      CouplersApart(embeddings, adj, f, g, e);
    }
  }

  lemma UnchangedPart(after: map<Edge, real>, before: map<Edge, real>, couplers: set<Edge>, value: real, e: Edge)
    requires SpreadEvenly(after, before, couplers, value) && e in before && e !in couplers
    ensures e in after && after[e] == before[e]
  {
  }

  lemma WhoseCoupler(j: map<Edge, real>, embeddings: seq<Chain>, adj: set<Edge>, before: map<Edge, real>, todo: set<Edge>, f: Edge,
                     after: map<Edge, real>, e: Edge) returns (g: Edge)
    requires f in j && Spread(before, j, todo, embeddings, adj) && e in after
    requires SpreadEvenly(after, before, CouplersOf(f, embeddings, adj), j[f])
    ensures g in j && g !in todo - {f} && e in CouplersOf(g, embeddings, adj)
  {
    if e in CouplersOf(f, embeddings, adj) {
      g := f;
    } else {
      g :| g in j && g !in todo && e in CouplersOf(g, embeddings, adj);
    }
  }

  lemma BalancedNext(j: map<Edge, real>, embeddings: seq<Chain>, before: map<Edge, real>, todo: map<Edge, real>, f: Edge, value: real,
                     after: map<Edge, real>)
    requires f in todo && todo[f] == value && 0 <= f.0 < |embeddings| && 0 <= f.1 < |embeddings| && Balanced(j, embeddings, before, todo)
    requires forall s: Spins, w | ConstantPair(embeddings[f.0], embeddings[f.1], s, w) ::
               WeightedSum(after, Both(s)) == WeightedSum(before, Both(s)) + value * w
    ensures Balanced(j, embeddings, after, todo - {f})
  {
    forall s: Spins, x: Spins | ChainsFollow(embeddings, s, x)
      ensures WeightedSum(after, Both(s)) + WeightedSum(todo - {f}, Both(x)) == WeightedSum(j, Both(x))
    {
      FollowedPair(embeddings, f, s, x);
      RemoveCoupling(todo, f, value, x);
    }
  }

  lemma RemoveCoupling(todo: map<Edge, real>, f: Edge, value: real, x: Spins)
    requires f in todo && todo[f] == value
    ensures WeightedSum(todo, Both(x)) == WeightedSum(todo - {f}, Both(x)) + value * Both(x)(f)
  {
    WeightedSumRemove(todo, f, Both(x));
  }

  lemma FollowedPair(embeddings: seq<Chain>, f: Edge, s: Spins, x: Spins)
    requires 0 <= f.0 < |embeddings| && 0 <= f.1 < |embeddings| && ChainsFollow(embeddings, s, x)
    ensures ConstantPair(embeddings[f.0], embeddings[f.1], s, Both(x)(f))
  {
    ConstantPairOf(embeddings[f.0], embeddings[f.1], s, x(f.0), x(f.1));
  }

  // ---------------------------------------------------------------- edges inside chains

  /** An ascending edge of the hardware graph with both ends in one chain. */
  ghost predicate ChainEdge(e: Edge, embeddings: seq<Chain>, adj: set<Edge>) {
    e.0 < e.1 && e in adj && exists c :: 0 <= c < |embeddings| && e.0 in embeddings[c] && e.1 in embeddings[c]
  }

  ghost predicate Inside(e: Edge, chain: Chain, adj: set<Edge>) {
    e.0 < e.1 && e in adj && e.0 in chain && e.1 in chain
  }

  ghost predicate Touches(e: Edge, part: seq<int>) {
    e.0 in part || e.1 in part
  }

  ghost predicate Star(e: Edge, centre: int, leaves: seq<int>) {
    (e.0 == centre && e.1 in leaves) || (e.1 == centre && e.0 in leaves)
  }

  method EdgesWithin(chain: Chain, adj: set<Edge>) returns (edges: set<Edge>)
    requires Distinct(chain) && Symmetric(adj)
    ensures forall e: Edge :: e in edges <==> Inside(e, chain, adj)
  {
    edges := {};
    for j := 0 to |chain|
      invariant forall e: Edge :: e in edges <==> Inside(e, chain, adj) && Touches(e, chain[..j])
    {
      edges := EdgesFrom(chain, j, adj, edges);
    }
    forall e: Edge
      ensures e in edges <==> Inside(e, chain, adj)
    {
      assert chain[..|chain|] == chain;
    }
  }

  method EdgesFrom(chain: Chain, j: nat, adj: set<Edge>, before: set<Edge>) returns (edges: set<Edge>)
    requires Distinct(chain) && Symmetric(adj) && j < |chain|
    requires forall e: Edge :: e in before <==> Inside(e, chain, adj) && Touches(e, chain[..j])
    ensures forall e: Edge :: e in edges <==> Inside(e, chain, adj) && Touches(e, chain[..j + 1])
  {
    edges := before;
    for k := j + 1 to |chain|
      invariant forall e: Edge :: e in edges <==> e in before || (Inside(e, chain, adj) && Star(e, chain[j], chain[j + 1..k]))
    {
      var p := Norm(chain[j], chain[k]);
      assert chain[j] != chain[k];
      assert chain[j + 1..k + 1] == chain[j + 1..k] + [chain[k]];
      if p in adj {
        edges := edges + {p};
      }
    }
    forall e: Edge
      ensures e in edges <==> Inside(e, chain, adj) && Touches(e, chain[..j + 1])
    {
      assert chain[..j + 1] == chain[..j] + [chain[j]];
      assert chain == chain[..j] + [chain[j]] + chain[j + 1..|chain|];
    }
  }

  method ChainEdges(embeddings: seq<Chain>, adj: set<Edge>) returns (jc: set<Edge>)
    requires Symmetric(adj) && forall c | 0 <= c < |embeddings| :: Distinct(embeddings[c])
    ensures forall e: Edge :: e in jc <==> ChainEdge(e, embeddings, adj)
  {
    jc := {};
    for c := 0 to |embeddings|
      invariant forall e: Edge :: e in jc <==> ChainEdge(e, embeddings[..c], adj)
    {
      var edges := EdgesWithin(embeddings[c], adj);
      jc := jc + edges;
      forall e: Edge
        ensures ChainEdge(e, embeddings[..c + 1], adj) <==> ChainEdge(e, embeddings[..c], adj) || Inside(e, embeddings[c], adj)
      {
        ChainEdgeNext(e, embeddings, c, adj);
      }
    }
    assert embeddings[..|embeddings|] == embeddings;
  }

  lemma ChainEdgeNext(e: Edge, embeddings: seq<Chain>, c: nat, adj: set<Edge>)
    requires c < |embeddings|
    ensures ChainEdge(e, embeddings[..c + 1], adj) <==> ChainEdge(e, embeddings[..c], adj) || Inside(e, embeddings[c], adj)
  {
    var now, before := embeddings[..c + 1], embeddings[..c];
    assert forall d | 0 <= d < c :: now[d] == before[d];
    assert now[c] == embeddings[c];
    if ChainEdge(e, before, adj) {
      var d :| 0 <= d < |before| && e.0 in before[d] && e.1 in before[d];
      assert e.0 in now[d] && e.1 in now[d];
    }
  }

  // ---------------------------------------------------------------- what the chain couplings are for

  /** The energy of a coupling -1. */
  ghost function EdgeEnergy(s: Spins): Edge -> real {
    (e: Edge) => -(s(e.0) * s(e.1))
  }

  /** The energy of the couplings -1 on the chain edges. */
  ghost function ChainEnergy(jc: set<Edge>, s: Spins): real {
    SetSum(jc, EdgeEnergy(s))
  }

  ghost predicate UpOrDown(embeddings: seq<Chain>, s: Spins) {
    forall c, q | 0 <= c < |embeddings| && q in embeddings[c] :: s(q) == 1.0 || s(q) == -1.0
  }

  ghost predicate AllConstant(embeddings: seq<Chain>, s: Spins) {
    forall c, q, r | 0 <= c < |embeddings| && q in embeddings[c] && r in embeddings[c] :: s(q) == s(r)
  }

  lemma {:induction false} SumOfSigns(es: set<Edge>, g: Edge -> real)
    requires forall e | e in es :: g(e) == 1.0 || g(e) == -1.0
    ensures SetSum(es, g) >= -(|es| as real)
    ensures SetSum(es, g) == -(|es| as real) <==> forall e | e in es :: g(e) == -1.0
    decreases |es|
  {
    if es != {} {
      var e :| e in es;
      SetSumRemove(es, e, g);
      SumOfSigns(es - {e}, g);
      assert |es| == |es - {e}| + 1;
    }
  }

  /** In a connected chain with two different spins some chain edge joins different spins. */
  lemma MixedChainHasMixedEdge(embeddings: seq<Chain>, adj: set<Edge>, jc: set<Edge>, s: Spins, c: nat, q: int, r: int) returns (e: Edge)
    requires c < |embeddings| && q in embeddings[c] && r in embeddings[c] && s(q) != s(r)
    requires Symmetric(adj) && Connected(Elements(embeddings[c]), adj)
    requires forall f: Edge :: f in jc <==> ChainEdge(f, embeddings, adj)
    ensures e in jc && s(e.0) != s(e.1)
  {
    var chain := embeddings[c];
    var part := set v | v in chain && s(v) == s(q);
    assert q in part && r in Elements(chain) - part;
    assert part < Elements(chain);
    assert Crosses(adj, part, Elements(chain) - part);
    var u, v :| u in part && v in Elements(chain) - part && (u, v) in adj;
    e := Norm(u, v);
    assert u in chain && v in chain && u != v;
    assert ChainEdge(e, embeddings, adj);
  }

  /** A chain edge counts -1 between equal spins and 1 between different ones. */
  lemma EdgeSigns(embeddings: seq<Chain>, adj: set<Edge>, jc: set<Edge>, s: Spins)
    requires UpOrDown(embeddings, s) && forall e: Edge :: e in jc <==> ChainEdge(e, embeddings, adj)
    ensures forall e: Edge | e in jc :: EdgeEnergy(s)(e) == if s(e.0) == s(e.1) then -1.0 else 1.0
  {
    forall e: Edge | e in jc
      ensures EdgeEnergy(s)(e) == if s(e.0) == s(e.1) then -1.0 else 1.0
    {
      var u, v := e.0, e.1;
      var c :| 0 <= c < |embeddings| && u in embeddings[c] && v in embeddings[c];
      SignProduct(s(u), s(v));
    }
  }

  /** The chain energy is at least minus the number of chain edges, and that value means exactly that no chain is broken. */
  lemma ChainEnergyBound(embeddings: seq<Chain>, adj: set<Edge>, jc: set<Edge>, s: Spins)
    requires Symmetric(adj) && ValidChains(embeddings, adj) && UpOrDown(embeddings, s)
    requires forall e: Edge :: e in jc <==> ChainEdge(e, embeddings, adj)
    ensures ChainEnergy(jc, s) >= -(|jc| as real)
    ensures ChainEnergy(jc, s) == -(|jc| as real) <==> AllConstant(embeddings, s)
  {
    var g := EdgeEnergy(s);
    EdgeSigns(embeddings, adj, jc, s);
    SumOfSigns(jc, g);
    if !AllConstant(embeddings, s) {
      var e := BrokenEdge(embeddings, adj, jc, s);
    } else {
      forall e: Edge | e in jc
        ensures g(e) == -1.0
      {
        var u, v := e.0, e.1;
        var c :| 0 <= c < |embeddings| && u in embeddings[c] && v in embeddings[c];
        assert s(u) == s(v);
      }
    }
  }

  lemma BrokenEdge(embeddings: seq<Chain>, adj: set<Edge>, jc: set<Edge>, s: Spins) returns (e: Edge)
    requires Symmetric(adj) && ValidChains(embeddings, adj) && !AllConstant(embeddings, s)
    requires forall f: Edge :: f in jc <==> ChainEdge(f, embeddings, adj)
    ensures e in jc && s(e.0) != s(e.1)
  {
    var c, q, r :| 0 <= c < |embeddings| && q in embeddings[c] && r in embeddings[c] && s(q) != s(r);
    e := MixedChainHasMixedEdge(embeddings, adj, jc, s, c, q, r);
  }

  /** A broken chain costs at least 2. */
  lemma BrokenChainCosts(embeddings: seq<Chain>, adj: set<Edge>, jc: set<Edge>, s: Spins)
    requires Symmetric(adj) && ValidChains(embeddings, adj) && UpOrDown(embeddings, s) && !AllConstant(embeddings, s)
    requires forall e: Edge :: e in jc <==> ChainEdge(e, embeddings, adj)
    ensures ChainEnergy(jc, s) >= 2.0 - |jc| as real
  {
    var g := EdgeEnergy(s);
    EdgeSigns(embeddings, adj, jc, s);
    var e := BrokenEdge(embeddings, adj, jc, s);
    SetSumRemove(jc, e, g);
    SumOfSigns(jc - {e}, g);
    assert |jc| == |jc - {e}| + 1;
  }

  lemma SignProduct(a: real, b: real)
    requires (a == 1.0 || a == -1.0) && (b == 1.0 || b == -1.0)
    ensures -(a * b) == if a == b then -1.0 else 1.0
  {
  }

  // ---------------------------------------------------------------- the whole operation

  /** The embedded problem has, at all spins with unbroken chains, the energy of the logical problem. */
  ghost predicate Preserves(p: IsingProblem, embeddings: seq<Chain>, adj: set<Edge>, e: EmbeddedProblem) {
    && (forall s: Spins, x: Spins | ChainsFollow(embeddings, s, x) :: Energy(IsingProblem(e.h, e.j), s) == Energy(p, x))
    && (forall f: Edge :: f in e.jc <==> ChainEdge(f, embeddings, adj))
  }

  /** Every qubit of a chain has an equal part of the field of its variable and every coupler between two chains an equal part
  of their coupling; there are no other fields and couplings. */
  ghost predicate IsEmbedded(p: IsingProblem, embeddings: seq<Chain>, adj: set<Edge>, adjSize: nat, e: EmbeddedProblem) {
    && |e.h| == adjSize && FieldsSpread(e.h, embeddings, p.h, |embeddings|)
    && Spread(e.j, p.j, {}, embeddings, adj)
    && (forall f: Edge :: f in e.jc <==> ChainEdge(f, embeddings, adj))
  }

  method EmbedProblem(p: IsingProblem, embeddings: seq<Chain>, adj: set<Edge>, adjSize: nat) returns (e: EmbeddedProblem)
    requires p.Valid() && |p.h| == |embeddings| && Symmetric(adj) && Vertices(adj, adjSize)
    requires ValidChains(embeddings, adj) && AllCoupled(embeddings, p.j, adj)
    ensures Preserves(p, embeddings, adj, e) && IsEmbedded(p, embeddings, adj, adjSize, e)
  {
    var h0 := SpreadFields(p.h, embeddings, adj, adjSize);
    var jc := ChainEdges(embeddings, adj);
    var j0 := SpreadCouplings(p, embeddings, adj);
    e := EmbeddedProblem(h0, j0, jc);
  }

  /** The energy of a problem does not change when variables without terms are added. */
  method Resize(p: IsingProblem, n: nat) returns (q: IsingProblem)
    requires p.Valid() && |p.h| <= n
    ensures q.Valid() && |q.h| == n && q == p.(h := Padded(p.h, n))
    ensures forall x: Spins :: Energy(q, x) == Energy(p, x)
  {
    q := p.(h := Padded(p.h, n));
    forall x: Spins
      ensures Energy(q, x) == Energy(p, x)
    {
      LinearEnergyZeros(p.h, n - |p.h|, x);
    }
  }

  ghost predicate CleanedUp(p: IsingProblem, before: seq<Chain>, after: seq<Chain>, adj: set<Edge>, clean: bool)
    requires AllCoupled(before, p.j, adj)
  {
    if clean then exists protected: set<int> :: IsProtected(protected, before, p.j, adj) && Cleaned(p.h, p.j, before, after, protected, adj)
    else after == before
  }

  ghost predicate SmearedOut(p: IsingProblem, before: seq<Chain>, after: seq<Chain>, adj: set<Edge>, smear: bool,
                             targetsFor: (IsingProblem, seq<Chain>) -> seq<Target>) {
    if smear && p.j != map[] then Smeared(before, after, adj, targetsFor(p, before)) else after == before
  }

  /** The chains `after` come from `before` by cleaning and smearing as requested. */
  ghost predicate Prepared(p: IsingProblem, before: seq<Chain>, after: seq<Chain>, adj: set<Edge>, clean: bool, smear: bool,
                           targetsFor: (IsingProblem, seq<Chain>) -> seq<Target>)
    requires AllCoupled(before, p.j, adj)
  {
    exists middle: seq<Chain> ::
      CleanedUp(p, before, middle, adj, clean) && SmearedOut(p, middle, after, adj, smear, targetsFor)
  }

  /** Cleaning and smearing as requested. */
  method Prepare(p: IsingProblem, embeddings0: seq<Chain>, adj: set<Edge>, clean: bool, smear: bool,
                 targetsFor: (IsingProblem, seq<Chain>) -> seq<Target>)
    returns (embeddings: seq<Chain>)
    requires p.Valid() && |p.h| == |embeddings0| && Symmetric(adj)
    requires ValidChains(embeddings0, adj) && AllCoupled(embeddings0, p.j, adj)
    requires forall q, e :: GoodTargets(targetsFor(q, e), |e|)
    ensures |embeddings| == |embeddings0| && ValidChains(embeddings, adj) && AllCoupled(embeddings, p.j, adj)
    ensures Prepared(p, embeddings0, embeddings, adj, clean, smear, targetsFor)
  {
    embeddings := embeddings0;
    if clean {
      ghost var protected;
      embeddings, protected := CleanEmbedding(p.h, p.j, embeddings, adj);
    }
    ghost var middle := embeddings;
    assert CleanedUp(p, embeddings0, middle, adj, clean);
    if smear && p.j != map[] {
      var before := embeddings;
      embeddings := SmearEmbedding(before, adj, targetsFor(p, before));
      SmearKeepsCouplers(before, embeddings, p.j, adj);
    }
    assert SmearedOut(p, middle, embeddings, adj, smear, targetsFor);
  }

  ghost predicate GoodTargets(targets: seq<Target>, n: nat) {
    && (forall t | 0 <= t < |targets| :: targets[t].variable < n)
    && (forall s, t | 0 <= s < |targets| && 0 <= t < |targets| && s != t :: targets[s].variable != targets[t].variable)
  }

  ghost predicate GoodEntries(elements: seq<Entry>) {
    forall k | 0 <= k < |elements| :: GoodIndex(elements[k])
  }

  /** Chain c lists the positions that hold c, and there are no chains beyond the largest position value. */
  ghost predicate Decoded(chains: seq<Chain>, elements: seq<int>) {
    && (forall c | 0 <= c < |chains| :: Collects(chains[c], elements, |elements|, c))
    && (forall i | 0 <= i < |elements| :: elements[i] < |chains|)
    && (chains != [] ==> |chains| - 1 in elements)
  }

  ghost predicate HasEdges(adj: set<Edge>, adjacency: seq<Entry>) {
    forall u: int, v: int :: (u, v) in adj <==> IsEdge(adjacency, u, v)
  }

  /** The checks of the input: exactly which inputs are rejected. */
  method ReadInput(problem: seq<Entry>, embeddings: seq<int>, adjacency: seq<Entry>)
    returns (r: Result<(IsingProblem, seq<Chain>, set<Edge>, nat)>, ghost p: IsingProblem, ghost chains: seq<Chain>, ghost adj: set<Edge>)
    requires forall i | 0 <= i < |embeddings| :: embeddings[i] <= INT_MAX
    ensures r.Failure? <==>
      !GoodEntries(problem) || INT_MAX in embeddings || |p.h| > |chains| || !GoodEntries(adjacency)
      || !(forall c | 0 <= c < |chains| :: ValidChain(chains[c], adj)) || !AllCoupled(chains, p.j, adj)
    ensures GoodEntries(problem) ==> p.Valid() && |p.h| == Variables(problem) && forall x: Spins :: Energy(p, x) == EntriesEnergy(problem, x)
    ensures GoodEntries(problem) && INT_MAX !in embeddings ==> Decoded(chains, embeddings)
    ensures GoodEntries(problem) && INT_MAX !in embeddings && |p.h| <= |chains| && GoodEntries(adjacency) ==> HasEdges(adj, adjacency)
    ensures r.Success? ==>
      && r.value.0.Valid() && r.value.0 == p.(h := Padded(p.h, |chains|)) && (forall x: Spins :: Energy(r.value.0, x) == Energy(p, x))
      && r.value.1 == chains && r.value.2 == adj && Symmetric(adj) && Vertices(adj, r.value.3) && ValidChains(chains, adj)
  {
    p, chains, adj := IsingProblem([], map[]), [], {};
    var ising :- ToIsingProblem(problem);
    p := ising;
    var decoded :- DecodeEmbeddings(embeddings);
    chains := decoded;
    if |ising.h| > |decoded| {
      return Failure("problem has more variables than embeddings"), p, chains, adj;
    }
    var q := Resize(ising, |decoded|);
    var adjSet :- AdjacencySet(adjacency);
    adj := adjSet.0;
    DecodedDistinct(decoded, embeddings);
    var varsOk :- ValidateVars(decoded, adjSet.0, adjSet.1);
    var edgesOk :- ValidateEdges(decoded, q.j, adjSet.0);
    r := Success((q, decoded, adjSet.0, adjSet.1));
  }

  /** `sapi_embedProblem`: entries of an embedding problem in, embedded problem out, with the embedding that was used. */
  method EmbedEntries(problem: seq<Entry>, embeddings: seq<int>, adjacency: seq<Entry>, clean: bool, smear: bool,
                      targetsFor: (IsingProblem, seq<Chain>) -> seq<Target>)
    returns (r: Result<(EmbeddedProblem, seq<Chain>)>, ghost p: IsingProblem, ghost chains: seq<Chain>, ghost adj: set<Edge>)
    requires forall i | 0 <= i < |embeddings| :: embeddings[i] <= INT_MAX
    requires forall q, e :: GoodTargets(targetsFor(q, e), |e|)
    ensures r.Failure? <==>
      !GoodEntries(problem) || INT_MAX in embeddings || |p.h| > |chains| || !GoodEntries(adjacency)
      || !(forall c | 0 <= c < |chains| :: ValidChain(chains[c], adj)) || !AllCoupled(chains, p.j, adj)
    ensures GoodEntries(problem) ==> p.Valid() && |p.h| == Variables(problem) && forall x: Spins :: Energy(p, x) == EntriesEnergy(problem, x)
    ensures GoodEntries(problem) && INT_MAX !in embeddings ==> Decoded(chains, embeddings)
    ensures GoodEntries(problem) && INT_MAX !in embeddings && |p.h| <= |chains| && GoodEntries(adjacency) ==> HasEdges(adj, adjacency)
    ensures r.Success? ==>
      && Symmetric(adj) && ValidChains(r.value.1, adj)
      && Prepared(p.(h := Padded(p.h, |chains|)), chains, r.value.1, adj, clean, smear, targetsFor)
      && IsEmbedded(p, r.value.1, adj, |r.value.0.h|, r.value.0) && Vertices(adj, |r.value.0.h|)
      && (forall s: Spins, x: Spins | ChainsFollow(r.value.1, s, x) ::
            Energy(IsingProblem(r.value.0.h, r.value.0.j), s) == EntriesEnergy(problem, x))
  {
    var input;
    input, p, chains, adj := ReadInput(problem, embeddings, adjacency);
    if input.Failure? {
      return Failure(input.message), p, chains, adj;
    }
    var (q, decoded, adjSet, adjSize) := input.value;
    var used := Prepare(q, decoded, adjSet, clean, smear, targetsFor);
    var e := EmbedProblem(q, used, adjSet, adjSize);
    r := Success((e, used));
  }

  lemma DecodedDistinct(chains: seq<Chain>, elements: seq<int>)
    requires forall c | 0 <= c < |chains| :: Collects(chains[c], elements, |elements|, c)
    ensures Disjoint(chains) && forall c | 0 <= c < |chains| :: Distinct(chains[c])
  {
    forall a, b | 0 <= a < b < |chains|
      ensures Elements(chains[a]) !! Elements(chains[b])
    {
      assert forall v | v in Elements(chains[a]) :: elements[v] == a;
      assert forall v | v in Elements(chains[b]) :: elements[v] == b;
    }
  }
}
