/** What a strong chain coupling is for: optimal spins of the embedded problem are optimal spins of the logical one. */
module ChainStrength {
  import opened Arithmetic
  import opened Chains
  import opened EmbeddedProblems
  import opened IsingProblems
  import opened Sums

  /** Every spin is 1 or -1. */
  ghost predicate Signs(s: Spins) {
    forall q :: s(q) == 1.0 || s(q) == -1.0
  }

  ghost predicate Optimal(p: IsingProblem, x: Spins) {
    Signs(x) && forall y: Spins | Signs(y) :: Energy(p, x) <= Energy(p, y)
  }

  // ---------------------------------------------------------------- how much the couplings can outweigh

  ghost function FieldSizes(h: seq<real>): real {
    if h == [] then 0.0 else FieldSizes(h[..|h| - 1]) + AbsReal(h[|h| - 1])
  }

  ghost function Sizes(j: map<Edge, real>): Edge -> real {
    (e: Edge) => if e in j then AbsReal(j[e]) else 0.0
  }

  /** The sum of the absolute coefficients. */
  ghost function Size(p: IsingProblem): real {
    FieldSizes(p.h) + SetSum(p.j.Keys, Sizes(p.j))
  }

  lemma SignTimes(v: real, y: real)
    requires y == 1.0 || y == -1.0
    ensures -AbsReal(v) <= v * y <= AbsReal(v)
  {
  }

  lemma {:induction false} FieldsBound(h: seq<real>, s: Spins)
    requires Signs(s)
    ensures -FieldSizes(h) <= LinearEnergy(h, s) <= FieldSizes(h)
  {
    if h != [] {
      var l := |h| - 1;
      FieldsBound(h[..l], s);
      SignTimes(h[l], s(l));
    }
  }

  lemma {:induction false} SumWithin(es: set<Edge>, g: Edge -> real, w: Edge -> real)
    requires forall e | e in es :: -w(e) <= g(e) <= w(e)
    ensures -SetSum(es, w) <= SetSum(es, g) <= SetSum(es, w)
    decreases |es|
  {
    if es != {} {
      var e :| e in es;
      SetSumRemove(es, e, g);
      SetSumRemove(es, e, w);
      SumWithin(es - {e}, g, w);
    }
  }

  /** No energy is larger than the sum of the absolute coefficients. */
  lemma EnergyBound(p: IsingProblem, s: Spins)
    requires Signs(s)
    ensures -Size(p) <= Energy(p, s) <= Size(p)
  {
    FieldsBound(p.h, s);
    forall e | e in p.j.Keys
      ensures -Sizes(p.j)(e) <= Products(p.j, Both(s))(e) <= Sizes(p.j)(e)
    {
      var u, v := e.0, e.1;
      SignProduct(s(u), s(v));
      SignTimes(p.j[e], s(u) * s(v));
    }
    SumWithin(p.j.Keys, Products(p.j, Both(s)), Sizes(p.j));
  }

  // ---------------------------------------------------------------- reading back

  ghost function Problem(e: EmbeddedProblem): IsingProblem {
    IsingProblem(e.h, e.j)
  }

  /** The energy of the embedded problem with chain couplings of this strength. */
  ghost function Combined(e: EmbeddedProblem, strength: real, s: Spins): real {
    Energy(Problem(e), s) + strength * ChainEnergy(e.jc, s)
  }

  ghost predicate CombinedOptimal(e: EmbeddedProblem, strength: real, s: Spins) {
    Signs(s) && forall t: Spins | Signs(t) :: Combined(e, strength, s) <= Combined(e, strength, t)
  }

  /** The spin of each chain's first qubit. */
  ghost function ReadOff(embeddings: seq<Chain>, s: Spins): Spins {
    (c: int) => if 0 <= c < |embeddings| && embeddings[c] != [] then s(embeddings[c][0]) else 1.0
  }

  /** Gives every qubit the spin of its chain. */
  ghost function SpreadOut(embeddings: seq<Chain>, x: Spins): Spins {
    (q: int) => if InSome(embeddings, q) then x(ChainOf(embeddings, q)) else 1.0
  }

  ghost predicate InSome(embeddings: seq<Chain>, q: int) {
    exists c: nat :: c < |embeddings| && q in embeddings[c]
  }

  ghost function ChainOf(embeddings: seq<Chain>, q: int): (c: nat)
    requires InSome(embeddings, q)
    ensures c < |embeddings| && q in embeddings[c]
  {
    var c: nat :| c < |embeddings| && q in embeddings[c];
    c
  }

  lemma SpreadFollows(embeddings: seq<Chain>, x: Spins)
    requires Disjoint(embeddings) && Signs(x)
    ensures Signs(SpreadOut(embeddings, x)) && ChainsFollow(embeddings, SpreadOut(embeddings, x), x)
  {
    forall c, q | 0 <= c < |embeddings| && q in embeddings[c]
      ensures SpreadOut(embeddings, x)(q) == x(c)
    {
      assert InSome(embeddings, q);
      SameChain(embeddings, c, ChainOf(embeddings, q), q);
    }
  }

  lemma ReadOffFollows(embeddings: seq<Chain>, s: Spins)
    requires AllConstant(embeddings, s) && Signs(s)
    ensures Signs(ReadOff(embeddings, s)) && ChainsFollow(embeddings, s, ReadOff(embeddings, s))
  {
    var x := ReadOff(embeddings, s);
    forall c
      ensures x(c) == 1.0 || x(c) == -1.0
    {
      if 0 <= c < |embeddings| && embeddings[c] != [] {
        var first := embeddings[c][0];
        assert x(c) == s(first) && (s(first) == 1.0 || s(first) == -1.0);
      } else {
        assert x(c) == 1.0;
      }
    }
    forall c, q | 0 <= c < |embeddings| && q in embeddings[c]
      ensures s(q) == x(c)
    {
      var first := embeddings[c][0];
      assert first in embeddings[c] && x(c) == s(first);
    }
  }

  lemma FollowIsConstant(embeddings: seq<Chain>, s: Spins, x: Spins)
    requires ChainsFollow(embeddings, s, x)
    ensures AllConstant(embeddings, s)
  {
    forall c, q, r | 0 <= c < |embeddings| && q in embeddings[c] && r in embeddings[c]
      ensures s(q) == s(r)
    {
      assert Constant(embeddings[c], s, x(c));
    }
  }

  lemma CombinedAt(e: EmbeddedProblem, strength: real, s: Spins, energy: real, chains: real)
    requires Energy(Problem(e), s) == energy && ChainEnergy(e.jc, s) == chains
    ensures Combined(e, strength, s) == energy + strength * chains
  {
  }

  lemma UnbrokenEnergies(p: IsingProblem, embeddings: seq<Chain>, adj: set<Edge>, e: EmbeddedProblem, s: Spins, x: Spins)
    requires Symmetric(adj) && ValidChains(embeddings, adj) && Preserves(p, embeddings, adj, e)
    requires Signs(s) && ChainsFollow(embeddings, s, x)
    ensures Energy(Problem(e), s) == Energy(p, x) && ChainEnergy(e.jc, s) == -(|e.jc| as real)
  {
    FollowIsConstant(embeddings, s, x);
    ChainEnergyBound(embeddings, adj, e.jc, s);
  }

  /** At unbroken chains the chain couplings contribute a constant. */
  lemma UnbrokenValue(p: IsingProblem, embeddings: seq<Chain>, adj: set<Edge>, e: EmbeddedProblem, strength: real, s: Spins, x: Spins, least: real)
    requires Symmetric(adj) && ValidChains(embeddings, adj) && Preserves(p, embeddings, adj, e)
    requires Signs(s) && ChainsFollow(embeddings, s, x) && least == -(|e.jc| as real)
    ensures Combined(e, strength, s) == Energy(p, x) + strength * least
    ensures Energy(Problem(e), s) == Energy(p, x)
  {
    UnbrokenEnergies(p, embeddings, adj, e, s, x);
    CombinedAt(e, strength, s, Energy(p, x), least);
  }

  /** With a broken chain the energy is higher than it can be without one. */
  lemma BrokenValue(embeddings: seq<Chain>, adj: set<Edge>, e: EmbeddedProblem, strength: real, s: Spins, least: real)
    requires Symmetric(adj) && ValidChains(embeddings, adj)
    requires forall f: Edge :: f in e.jc <==> ChainEdge(f, embeddings, adj)
    requires Signs(s) && !AllConstant(embeddings, s) && strength > Size(Problem(e)) && least == -(|e.jc| as real)
    ensures Combined(e, strength, s) > Size(Problem(e)) + strength * least
  {
    BrokenChainCosts(embeddings, adj, e.jc, s);
    EnergyBound(Problem(e), s);
    CombinedAbove(e, strength, s, Size(Problem(e)), least);
  }

  lemma CombinedAbove(e: EmbeddedProblem, strength: real, s: Spins, size: real, least: real)
    requires -size <= Energy(Problem(e), s) <= size < strength && ChainEnergy(e.jc, s) >= 2.0 + least
    ensures Combined(e, strength, s) > size + strength * least
  {
    var chains := ChainEnergy(e.jc, s);
    AtLeastTwice(strength, chains, least, strength * chains, strength * least);
  }

  lemma AtLeastTwice(c: real, a: real, b: real, ca: real, cb: real)
    requires c >= 0.0 && a >= 2.0 + b && ca == c * a && cb == c * b
    ensures ca >= 2.0 * c + cb
  {
    var rest := a - b - 2.0;
    Distribute(c, b, 2.0);
    Distribute(c, b + 2.0, rest);
    NotNegative(c, rest);
  }

  lemma NotNegative(c: real, d: real)
    requires c >= 0.0 && d >= 0.0
    ensures c * d >= 0.0
  {
  }

  /** With chain couplings stronger than all other coefficients together, spins are optimal for the embedded problem if and
  only if no chain is broken and the spins of the chains are optimal for the logical problem. */
  lemma StrongChains(p: IsingProblem, embeddings: seq<Chain>, adj: set<Edge>, e: EmbeddedProblem, strength: real, s: Spins)
    requires Symmetric(adj) && ValidChains(embeddings, adj) && Preserves(p, embeddings, adj, e)
    requires Signs(s) && strength > Size(Problem(e))
    ensures CombinedOptimal(e, strength, s) <==> AllConstant(embeddings, s) && Optimal(p, ReadOff(embeddings, s))
  {
    if CombinedOptimal(e, strength, s) {
      OptimalIsUnbroken(p, embeddings, adj, e, strength, s);
      OptimalReadsBack(p, embeddings, adj, e, strength, s);
    }
    if AllConstant(embeddings, s) && Optimal(p, ReadOff(embeddings, s)) {
      UnbrokenIsOptimal(p, embeddings, adj, e, strength, s);
    }
  }

  lemma OptimalIsUnbroken(p: IsingProblem, embeddings: seq<Chain>, adj: set<Edge>, e: EmbeddedProblem, strength: real, s: Spins)
    requires Symmetric(adj) && ValidChains(embeddings, adj) && Preserves(p, embeddings, adj, e)
    requires strength > Size(Problem(e)) && CombinedOptimal(e, strength, s)
    ensures AllConstant(embeddings, s)
  {
    if !AllConstant(embeddings, s) {
      var least := -(|e.jc| as real);
      BrokenValue(embeddings, adj, e, strength, s, least);
      var up: Spins := (_: int) => 1.0;
      var t := SpreadOut(embeddings, up);
      SpreadFollows(embeddings, up);
      UnbrokenValue(p, embeddings, adj, e, strength, t, up, least);
      EnergyBound(Problem(e), t);
    }
  }

  lemma OptimalReadsBack(p: IsingProblem, embeddings: seq<Chain>, adj: set<Edge>, e: EmbeddedProblem, strength: real, s: Spins)
    requires Symmetric(adj) && ValidChains(embeddings, adj) && Preserves(p, embeddings, adj, e)
    requires CombinedOptimal(e, strength, s) && AllConstant(embeddings, s)
    ensures Optimal(p, ReadOff(embeddings, s))
  {
    var x, least := ReadOff(embeddings, s), -(|e.jc| as real);
    ReadOffFollows(embeddings, s);
    UnbrokenValue(p, embeddings, adj, e, strength, s, x, least);
    forall y: Spins | Signs(y)
      ensures Energy(p, x) <= Energy(p, y)
    {
      SpreadFollows(embeddings, y);
      UnbrokenValue(p, embeddings, adj, e, strength, SpreadOut(embeddings, y), y, least);
    }
  }

  lemma UnbrokenIsOptimal(p: IsingProblem, embeddings: seq<Chain>, adj: set<Edge>, e: EmbeddedProblem, strength: real, s: Spins)
    requires Symmetric(adj) && ValidChains(embeddings, adj) && Preserves(p, embeddings, adj, e)
    requires Signs(s) && strength > Size(Problem(e)) && AllConstant(embeddings, s) && Optimal(p, ReadOff(embeddings, s))
    ensures CombinedOptimal(e, strength, s)
  {
    var x, least := ReadOff(embeddings, s), -(|e.jc| as real);
    ReadOffFollows(embeddings, s);
    UnbrokenValue(p, embeddings, adj, e, strength, s, x, least);
    EnergyBound(Problem(e), s);
    forall t: Spins | Signs(t)
      ensures Combined(e, strength, s) <= Combined(e, strength, t)
    {
      if AllConstant(embeddings, t) {
        ReadOffFollows(embeddings, t);
        UnbrokenValue(p, embeddings, adj, e, strength, t, ReadOff(embeddings, t), least);
      } else {
        BrokenValue(embeddings, adj, e, strength, t, least);
      }
    }
  }
}
