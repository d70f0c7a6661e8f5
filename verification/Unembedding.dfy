/** From qubit spins back to logical spins: discarding broken chains, and repairing them greedily. */
module Unembedding {
  import opened Arithmetic
  import opened Sums
  import opened IsingProblems

  ghost function SpinsOf(x: seq<int>): Spins {
    (i: int) => if 0 <= i < |x| then x[i] as real else 0.0
  }

  /** What a coupling adds to the local field of variable `i`. */
  ghost function Neighbour(s: Spins, i: int): Edge -> real {
    (e: Edge) => if e.0 == i then s(e.1) else if e.1 == i then s(e.0) else 0.0
  }

  /** The local field: how the energy changes with the spin of `i`. */
  ghost function Field(p: IsingProblem, s: Spins, i: int): real {
    FieldAt(p.h, i) + WeightedSum(p.j, Neighbour(s, i))
  }

  /** The spin that lowers the energy in this field. */
  function Opposing(field: real): int {
    if field > 0.0 then -1 else 1
  }

  // ---------------------------------------------------------------- energy and fields when one spin is set

  lemma {:induction false} LinearSpin(h: seq<real>, x: seq<int>, i: nat, v: int)
    requires i < |x| && x[i] == 0
    ensures LinearEnergy(h, SpinsOf(x[i := v])) == LinearEnergy(h, SpinsOf(x)) + FieldAt(h, i) * v as real
  {
    if h != [] {
      var l := |h| - 1;
      LinearSpin(h[..l], x, i, v);
      assert FieldAt(h[..l], i) == if i == l then 0.0 else FieldAt(h, i);
    }
  }

  lemma CouplingSpin(p: IsingProblem, x: seq<int>, i: nat, v: int)
    requires p.Valid() && |p.h| <= |x| && i < |x| && x[i] == 0 && (v == 1 || v == -1)
    ensures WeightedSum(p.j, Both(SpinsOf(x[i := v]))) ==
            WeightedSum(p.j, Both(SpinsOf(x))) + if v == 1 then WeightedSum(p.j, Neighbour(SpinsOf(x), i)) else -WeightedSum(p.j, Neighbour(SpinsOf(x), i))
  {
    var before, after, turn := Both(SpinsOf(x)), Both(SpinsOf(x[i := v])), Neighbour(SpinsOf(x), i);
    if v == 1 {
      WeightedSumPlus(p.j, before, turn, after);
    } else {
      WeightedSumPlus(p.j, after, turn, before);
    }
  }

  /** Setting an undecided spin changes the energy by its field. */
  lemma SetSpin(p: IsingProblem, x: seq<int>, i: nat, v: int)
    requires p.Valid() && |p.h| <= |x| && i < |x| && x[i] == 0 && (v == 1 || v == -1)
    ensures Energy(p, SpinsOf(x[i := v])) == Energy(p, SpinsOf(x)) + if v == 1 then Field(p, SpinsOf(x), i) else -Field(p, SpinsOf(x), i)
  {
    LinearSpin(p.h, x, i, v);
    CouplingSpin(p, x, i, v);
  }

  function Ordered(i: int, j: int): Edge {
    if i < j then (i, j) else (j, i)
  }

  /** Setting spin `c` changes the field of another variable by their coupling. */
  lemma FieldUpdate(p: IsingProblem, x: seq<int>, c: nat, v: int, i: int)
    requires p.Valid() && |p.h| <= |x| && c < |x| && x[c] == 0 && i != c
    ensures Field(p, SpinsOf(x[c := v]), i) == Field(p, SpinsOf(x), i) + EntryAt(p.j, Ordered(c, i)) * v as real
  {
    var key, w, r := Ordered(c, i), Neighbour(SpinsOf(x), i), Neighbour(SpinsOf(x[c := v]), i);
    assert w(key) == 0.0 && r(key) == v as real;
    WeightedSumAt(p.j, key, w, r);
  }

  /** Only neighbours before `m` count. */
  ghost function NeighbourTo(s: Spins, i: int, m: int): Edge -> real {
    (e: Edge) => if e.0 == i && e.1 < m then s(e.1) else if e.1 == i && e.0 < m then s(e.0) else 0.0
  }

  lemma FieldStep(p: IsingProblem, s: Spins, i: nat, m: nat)
    requires p.Valid()
    ensures WeightedSum(p.j, NeighbourTo(s, i, m + 1)) == WeightedSum(p.j, NeighbourTo(s, i, m)) + EntryAt(p.j, Ordered(i, m)) * s(m)
  {
    WeightedSumAt(p.j, Ordered(i, m), NeighbourTo(s, i, m), NeighbourTo(s, i, m + 1));
  }

  lemma FieldStart(p: IsingProblem, s: Spins, i: nat)
    requires p.Valid()
    ensures WeightedSum(p.j, NeighbourTo(s, i, 0)) == 0.0
  {
    var none: Edge -> real := (e: Edge) => 0.0;
    WeightedSumSame(p.j, none, NeighbourTo(s, i, 0));
    WeightedSumPlus(p.j, none, none, none);
  }

  lemma FieldEnd(p: IsingProblem, s: Spins, i: nat, n: nat)
    requires p.Valid() && |p.h| <= n
    ensures WeightedSum(p.j, NeighbourTo(s, i, n)) == WeightedSum(p.j, Neighbour(s, i))
  {
    WeightedSumSame(p.j, Neighbour(s, i), NeighbourTo(s, i, n));
  }

  // ---------------------------------------------------------------- greedy repair

  /** The last entry takes the place of entry `k`. */
  function Remove<T>(order: seq<T>, k: nat): (r: seq<T>)
    requires k < |order|
    ensures |r| == |order| - 1 && forall l | 0 <= l < |r| :: r[l] == order[if l == k then |order| - 1 else l]
  {
    order[k := order[|order| - 1]][..|order| - 1]
  }

  /** Place `k` of the list is the first with a strongest field. */
  ghost predicate FirstStrongest(p: IsingProblem, x: seq<int>, order: seq<nat>, k: nat) {
    && k < |order|
    && (forall l | 0 <= l < |order| :: AbsReal(Field(p, SpinsOf(x), order[l])) <= AbsReal(Field(p, SpinsOf(x), order[k])))
    && (forall l | 0 <= l < k :: AbsReal(Field(p, SpinsOf(x), order[l])) < AbsReal(Field(p, SpinsOf(x), order[k])))
  }

  /** Deciding the listed variables one after the other, each time the first with a strongest field, against that field,
  turns `x` into `y`; `gain` is the sum of the absolute fields at the moments of decision. */
  ghost predicate Greedy(p: IsingProblem, x: seq<int>, order: seq<nat>, y: seq<int>, gain: real)
    decreases |order|
  {
    if order == [] then y == x && gain == 0.0 else
      exists k: nat | FirstStrongest(p, x, order, k) :: Decides(p, x, order, k, y, gain)
  }

  ghost predicate Decides(p: IsingProblem, x: seq<int>, order: seq<nat>, k: nat, y: seq<int>, gain: real)
    requires k < |order|
    decreases |order|, 0
  {
    var i := order[k];
    var f := Field(p, SpinsOf(x), i);
    i < |x| && Greedy(p, x[i := Opposing(f)], Remove(order, k), y, gain - AbsReal(f))
  }

  /** There is one outcome. */
  lemma {:induction false} GreedyIsUnique(p: IsingProblem, x: seq<int>, order: seq<nat>, y: seq<int>, gain: real, y': seq<int>, gain': real)
    requires Greedy(p, x, order, y, gain) && Greedy(p, x, order, y', gain')
    ensures y == y' && gain == gain'
    decreases |order|
  {
    if order != [] {
      var k: nat :| FirstStrongest(p, x, order, k) && Decides(p, x, order, k, y, gain);
      var k': nat :| FirstStrongest(p, x, order, k') && Decides(p, x, order, k', y', gain');
      assert k == k' by {
        SameFirst(p, x, order, k, k');
      }
      var f := Field(p, SpinsOf(x), order[k]);
      GreedyIsUnique(p, x[order[k] := Opposing(f)], Remove(order, k), y, gain - AbsReal(f), y', gain' - AbsReal(f));
    }
  }

  lemma SameFirst(p: IsingProblem, x: seq<int>, order: seq<nat>, k: nat, l: nat)
    requires FirstStrongest(p, x, order, k) && FirstStrongest(p, x, order, l)
    ensures k == l
  {
    assert AbsReal(Field(p, SpinsOf(x), order[k])) == AbsReal(Field(p, SpinsOf(x), order[l]));
  }

  /** Different variables, none of them decided. */
  ghost predicate Undecided(x: seq<int>, order: seq<nat>) {
    && (forall k | 0 <= k < |order| :: order[k] < |x| && x[order[k]] == 0)
    && (forall k, l | 0 <= k < l < |order| :: order[k] != order[l])
  }

  lemma RemoveUndecided(x: seq<int>, order: seq<nat>, k: nat, v: int)
    requires k < |order| && Undecided(x, order)
    ensures Undecided(x[order[k] := v], Remove(order, k))
    ensures forall i :: i in order <==> i == order[k] || i in Remove(order, k)
    ensures order[k] !in Remove(order, k)
  {
    var r, last := Remove(order, k), |order| - 1;
    forall i | i in order && i != order[k]
      ensures i in r
    {
      var l :| 0 <= l < |order| && order[l] == i;
      assert r[if l == last then k else l] == i;
    }
  }

  /** Only the undecided variables change, each becomes 1 or -1, and the energy drops by the gain. */
  lemma {:induction false} GreedyEnergy(p: IsingProblem, x: seq<int>, order: seq<nat>, y: seq<int>, gain: real)
    requires p.Valid() && |p.h| <= |x| && Undecided(x, order) && Greedy(p, x, order, y, gain)
    ensures |y| == |x|
    ensures forall i | 0 <= i < |x| :: if i in order then y[i] == 1 || y[i] == -1 else y[i] == x[i]
    ensures Energy(p, SpinsOf(y)) == Energy(p, SpinsOf(x)) - gain && gain >= 0.0
    decreases |order|
  {
    if order != [] {
      var k: nat :| FirstStrongest(p, x, order, k) && Decides(p, x, order, k, y, gain);
      var f := Field(p, SpinsOf(x), order[k]);
      RemoveUndecided(x, order, k, Opposing(f));
      OpposeField(p, x, order[k]);
      GreedyEnergy(p, x[order[k] := Opposing(f)], Remove(order, k), y, gain - AbsReal(f));
    }
  }

  /** Deciding one variable against its field lowers the energy by the size of the field. */
  lemma OpposeField(p: IsingProblem, x: seq<int>, i: nat)
    requires p.Valid() && |p.h| <= |x| && i < |x| && x[i] == 0
    ensures var f := Field(p, SpinsOf(x), i); Energy(p, SpinsOf(x[i := Opposing(f)])) == Energy(p, SpinsOf(x)) - AbsReal(f)
  {
    SetSpin(p, x, i, Opposing(Field(p, SpinsOf(x), i)));
  }

  /** The average energy over all ways to decide the listed variables. */
  ghost function Average(p: IsingProblem, x: seq<int>, todo: seq<nat>): real
    requires forall k | 0 <= k < |todo| :: todo[k] < |x|
    decreases |todo|
  {
    if todo == [] then Energy(p, SpinsOf(x)) else
      (Average(p, x[todo[0] := 1], todo[1..]) + Average(p, x[todo[0] := -1], todo[1..])) / 2.0
  }

  /** The average is the energy with zeros for the undecided variables. */
  lemma {:induction false} AverageIsZeroFilled(p: IsingProblem, x: seq<int>, todo: seq<nat>)
    requires p.Valid() && |p.h| <= |x|
    requires forall k | 0 <= k < |todo| :: todo[k] < |x| && x[todo[k]] == 0
    requires forall k, l | 0 <= k < l < |todo| :: todo[k] != todo[l]
    ensures Average(p, x, todo) == Energy(p, SpinsOf(x))
    decreases |todo|
  {
    if todo != [] {
      var i, rest := todo[0], todo[1..];
      forall k | 0 <= k < |rest|
        ensures rest[k] != i
      {
        assert rest[k] == todo[k + 1];
      }
      AverageIsZeroFilled(p, x[i := 1], rest);
      AverageIsZeroFilled(p, x[i := -1], rest);
      SetSpin(p, x, i, 1);
      SetSpin(p, x, i, -1);
    }
  }

  /** Greedy repair is never worse than the average over all ways to decide the broken chains. */
  lemma GreedyNotWorseThanAverage(p: IsingProblem, x: seq<int>, todo: seq<nat>, y: seq<int>, gain: real)
    requires p.Valid() && |p.h| <= |x|
    requires forall k | 0 <= k < |todo| :: todo[k] < |x| && x[todo[k]] == 0
    requires forall k, l | 0 <= k < l < |todo| :: todo[k] != todo[l]
    requires Greedy(p, x, todo, y, gain)
    ensures Energy(p, SpinsOf(y)) <= Average(p, x, todo)
  {
    AverageIsZeroFilled(p, x, todo);
    GreedyEnergy(p, x, todo, y, gain);
  }

  // ---------------------------------------------------------------- reading a solution through the chains

  /** The qubits of the chain disagree. */
  ghost predicate Broken(solution: seq<int>, chain: Chain)
    requires forall k | 0 <= k < |chain| :: 0 <= chain[k] < |solution|
  {
    exists k :: 0 <= k < |chain| && solution[chain[k]] != solution[chain[0]]
  }

  ghost predicate InRange(embeddings: seq<Chain>, n: nat) {
    forall c, k | 0 <= c < |embeddings| && 0 <= k < |embeddings[c]| :: 0 <= embeddings[c][k] < n
  }

  method IsIntact(solution: seq<int>, chain: Chain) returns (ok: bool)
    requires chain != [] && forall k | 0 <= k < |chain| :: 0 <= chain[k] < |solution|
    ensures ok <==> !Broken(solution, chain)
  {
    ok := true;
    for k := 0 to |chain|
      invariant ok && forall l | 0 <= l < k :: solution[chain[l]] == solution[chain[0]]
    {
      if solution[chain[k]] != solution[chain[0]] {
        ok := false;
        break;
      }
    }
  }

  /** The common spin of an intact chain, 0 for a broken one; an empty chain leaves what was there. */
  ghost function StartValue(solution: seq<int>, chain: Chain, before: int): int
    requires forall k | 0 <= k < |chain| :: 0 <= chain[k] < |solution|
  {
    if chain == [] then before else if Broken(solution, chain) then 0 else solution[chain[0]]
  }

  ghost function Start(solution: seq<int>, embeddings: seq<Chain>, before: seq<int>): (x: seq<int>)
    requires InRange(embeddings, |solution|) && |before| == |embeddings|
    ensures |x| == |embeddings| && forall c | 0 <= c < |x| :: x[c] == StartValue(solution, embeddings[c], before[c])
  {
    seq(|embeddings|, c requires 0 <= c < |embeddings| => StartValue(solution, embeddings[c], before[c]))
  }

  ghost function BrokenTo(solution: seq<int>, embeddings: seq<Chain>, n: nat): (s: seq<nat>)
    requires InRange(embeddings, |solution|) && n <= |embeddings|
    ensures forall k | 0 <= k < |s| :: s[k] < n && Broken(solution, embeddings[s[k]])
    ensures forall k, l | 0 <= k < l < |s| :: s[k] != s[l]
  {
    if n == 0 then [] else BrokenTo(solution, embeddings, n - 1) + if Broken(solution, embeddings[n - 1]) then [n - 1] else []
  }

  /** Only the entries from `from` on, `n` of them, differ between the two buffers. */
  ghost predicate SameOutside(now: seq<int>, before: seq<int>, from: nat, n: nat) {
    |now| == |before| && forall k | 0 <= k < |now| && !(from <= k < from + n) :: now[k] == before[k]
  }

  method ReadChains(solution: seq<int>, embeddings: seq<Chain>, out: array<int>, from: nat) returns (broken: seq<nat>)
    requires InRange(embeddings, |solution|) && from + |embeddings| <= out.Length
    modifies out
    ensures SameOutside(out[..], old(out[..]), from, |embeddings|)
    ensures out[from..from + |embeddings|] == Start(solution, embeddings, old(out[from..from + |embeddings|]))
    ensures broken == BrokenTo(solution, embeddings, |embeddings|)
  {
    broken := [];
    ghost var before := out[from..from + |embeddings|];
    for c := 0 to |embeddings|
      invariant SameOutside(out[..], old(out[..]), from, |embeddings|)
      invariant forall d | 0 <= d < |embeddings| :: out[from + d] == if d < c then StartValue(solution, embeddings[d], before[d]) else before[d]
      invariant broken == BrokenTo(solution, embeddings, c)
    {
      if embeddings[c] == [] {
        continue;
      }
      var ok := IsIntact(solution, embeddings[c]);
      if ok {
        out[from + c] := solution[embeddings[c][0]];
      } else {
        out[from + c] := 0;
        broken := broken + [c];
      }
    }
  }

  // ---------------------------------------------------------------- the repair loop

  /** A local field and the variable it belongs to. */
  type Cached = (real, nat)

  /** The variables of the list, in its order. */
  ghost function Order(energies: seq<Cached>): (order: seq<nat>)
    ensures |order| == |energies| && forall k | 0 <= k < |order| :: order[k] == energies[k].1
  {
    seq(|energies|, k requires 0 <= k < |energies| => energies[k].1)
  }

  /** Each cached field is the field of its undecided variable under the present spins. */
  ghost predicate Accurate(p: IsingProblem, x: seq<int>, energies: seq<Cached>) {
    && Undecided(x, Order(energies))
    && (forall k | 0 <= k < |energies| :: energies[k].0 == Field(p, SpinsOf(x), energies[k].1))
  }

  method LocalField(p: IsingProblem, x: seq<int>, i: nat) returns (e: real)
    requires p.Valid() && |p.h| <= |x|
    ensures e == Field(p, SpinsOf(x), i)
  {
    e := if |p.h| > i then p.h[i] else 0.0;
    ghost var s := SpinsOf(x);
    FieldStart(p, s, i);
    for j := 0 to |x|
      invariant e == FieldAt(p.h, i) + WeightedSum(p.j, NeighbourTo(s, i, j))
    {
      FieldStep(p, s, i, j);
      var key := Ordered(i, j);
      if key in p.j {
        e := e + p.j[key] * x[j] as real;
      }
    }
    FieldEnd(p, s, i, |x|);
  }

  method InitialFields(p: IsingProblem, x: seq<int>, broken: seq<nat>) returns (energies: seq<Cached>)
    requires p.Valid() && |p.h| <= |x|
    requires forall k | 0 <= k < |broken| :: broken[k] < |x| && x[broken[k]] == 0
    requires forall k, l | 0 <= k < l < |broken| :: broken[k] != broken[l]
    ensures Accurate(p, x, energies) && Order(energies) == broken
  {
    energies := [];
    for k := 0 to |broken|
      invariant |energies| == k && forall l | 0 <= l < k :: energies[l] == (Field(p, SpinsOf(x), broken[l]), broken[l])
    {
      var e := LocalField(p, x, broken[k]);
      energies := energies + [(e, broken[k])];
    }
  }

  method FindStrongest(energies: seq<Cached>) returns (maxI: nat)
    requires energies != []
    ensures maxI < |energies| && forall k | 0 <= k < |energies| :: AbsReal(energies[k].0) <= AbsReal(energies[maxI].0)
    ensures forall k | 0 <= k < maxI :: AbsReal(energies[k].0) < AbsReal(energies[maxI].0)
  {
    var maxAbsE := -1.0;
    maxI := 0;
    for i := 0 to |energies|
      invariant maxI < |energies| && (i == 0 ==> maxAbsE < 0.0) && (i > 0 ==> maxAbsE == AbsReal(energies[maxI].0))
      invariant forall k | 0 <= k < i :: AbsReal(energies[k].0) <= maxAbsE
      invariant forall k | 0 <= k < maxI :: AbsReal(energies[k].0) < maxAbsE
    {
      if AbsReal(energies[i].0) > maxAbsE {
        maxAbsE, maxI := AbsReal(energies[i].0), i;
      }
    }
  }

  /** After spin `c` was set to `v`. */
  method UpdateFields(p: IsingProblem, ghost x: seq<int>, c: nat, v: int, energies0: seq<Cached>) returns (energies: seq<Cached>)
    requires p.Valid() && |p.h| <= |x| && c < |x| && x[c] == 0 && Undecided(x[c := v], Order(energies0))
    requires forall k | 0 <= k < |energies0| :: energies0[k].1 != c && energies0[k].0 == Field(p, SpinsOf(x), energies0[k].1)
    ensures Accurate(p, x[c := v], energies) && Order(energies) == Order(energies0)
  {
    energies := energies0;
    ghost var y := x[c := v];
    for k := 0 to |energies|
      invariant |energies| == |energies0| && forall l | 0 <= l < |energies| :: energies[l].1 == energies0[l].1
      invariant forall l | k <= l < |energies| :: energies[l] == energies0[l]
      invariant forall l | 0 <= l < k :: energies[l].0 == Field(p, SpinsOf(y), energies[l].1)
    {
      var e := UpdateField(p, x, c, v, energies[k]);
      energies := energies[k := e];
    }
    assert Order(energies) == Order(energies0);
  }

  method UpdateField(p: IsingProblem, ghost x: seq<int>, c: nat, v: int, e: Cached) returns (after: Cached)
    requires p.Valid() && |p.h| <= |x| && c < |x| && x[c] == 0 && e.1 != c && e.0 == Field(p, SpinsOf(x), e.1)
    ensures after.1 == e.1 && after.0 == Field(p, SpinsOf(x[c := v]), e.1)
  {
    FieldUpdate(p, x, c, v, e.1);
    after := e;
    var key := Ordered(c, e.1);
    if key in p.j {
      after := (e.0 + p.j[key] * v as real, e.1);
    }
  }

  lemma RemoveAt(p: IsingProblem, x: seq<int>, energies: seq<Cached>, k: nat, v: int)
    requires k < |energies| && Accurate(p, x, energies)
    ensures Order(Remove(energies, k)) == Remove(Order(energies), k)
    ensures Undecided(x[energies[k].1 := v], Order(Remove(energies, k)))
    ensures forall l | 0 <= l < |energies| - 1 ::
              Remove(energies, k)[l].1 != energies[k].1 && Remove(energies, k)[l].0 == Field(p, SpinsOf(x), Remove(energies, k)[l].1)
  {
    assert Order(Remove(energies, k)) == Remove(Order(energies), k);
    RemoveUndecided(x, Order(energies), k, v);
  }

  lemma StrongestCached(p: IsingProblem, x: seq<int>, energies: seq<Cached>, k: nat)
    requires k < |energies| && Accurate(p, x, energies)
    requires forall l | 0 <= l < |energies| :: AbsReal(energies[l].0) <= AbsReal(energies[k].0)
    requires forall l | 0 <= l < k :: AbsReal(energies[l].0) < AbsReal(energies[k].0)
    ensures FirstStrongest(p, x, Order(energies), k)
  {
    forall l | 0 <= l < |energies|
      ensures AbsReal(Field(p, SpinsOf(x), Order(energies)[l])) == AbsReal(energies[l].0)
    {
    }
  }

  /** Every run from `x` is the end of a run from `x0`. */
  ghost predicate Continues(p: IsingProblem, x0: seq<int>, order0: seq<nat>, x: seq<int>, order: seq<nat>, gain: real) {
    forall y, g | Greedy(p, x, order, y, g) :: Greedy(p, x0, order0, y, g + gain)
  }

  lemma DecisionInFront(p: IsingProblem, x: seq<int>, order: seq<nat>, k: nat, y: seq<int>, g: real)
    requires FirstStrongest(p, x, order, k) && order[k] < |x|
    requires Greedy(p, x[order[k] := Opposing(Field(p, SpinsOf(x), order[k]))], Remove(order, k), y, g)
    ensures Greedy(p, x, order, y, g + AbsReal(Field(p, SpinsOf(x), order[k])))
  {
    var f := Field(p, SpinsOf(x), order[k]);
    assert g + AbsReal(f) - AbsReal(f) == g;
    assert Decides(p, x, order, k, y, g + AbsReal(f));
  }

  lemma ContinuesStep(p: IsingProblem, x0: seq<int>, order0: seq<nat>, x: seq<int>, order: seq<nat>, gain: real, k: nat)
    requires Continues(p, x0, order0, x, order, gain) && FirstStrongest(p, x, order, k) && order[k] < |x|
    ensures var f := Field(p, SpinsOf(x), order[k]);
            Continues(p, x0, order0, x[order[k] := Opposing(f)], Remove(order, k), gain + AbsReal(f))
  {
    var f := Field(p, SpinsOf(x), order[k]);
    var next, left := x[order[k] := Opposing(f)], Remove(order, k);
    forall y, g | Greedy(p, next, left, y, g)
      ensures Greedy(p, x0, order0, y, g + (gain + AbsReal(f)))
    {
      DecisionInFront(p, x, order, k, y, g);
      assert g + AbsReal(f) + gain == g + (gain + AbsReal(f));
    }
  }

  /** One round of the loop: decide the first variable with a strongest field and update the other fields. */
  method Decide(p: IsingProblem, energies0: seq<Cached>, out: array<int>, from: nat, n: nat)
    returns (energies: seq<Cached>, ghost k: nat)
    requires from + n <= out.Length && p.Valid() && |p.h| <= n && energies0 != []
    requires Accurate(p, out[from..from + n], energies0)
    modifies out
    ensures SameOutside(out[..], old(out[..]), from, n)
    ensures FirstStrongest(p, old(out[from..from + n]), Order(energies0), k) && energies0[k].1 < n
    ensures out[from..from + n] == old(out[from..from + n])[energies0[k].1 := if energies0[k].0 > 0.0 then -1 else 1]
    ensures Accurate(p, out[from..from + n], energies) && Order(energies) == Remove(Order(energies0), k)
  {
    ghost var x := out[from..from + n];
    var maxI := FindStrongest(energies0);
    var maxE := energies0[maxI];
    k := maxI;
    assert Order(energies0)[k] == maxE.1;
    StrongestCached(p, x, energies0, maxI);
    var nsi := if maxE.0 > 0.0 then -1 else 1;
    RemoveAt(p, x, energies0, maxI, nsi);
    out[from + maxE.1] := nsi;
    assert out[from..from + n] == x[maxE.1 := nsi];
    energies := UpdateFields(p, x, maxE.1, nsi, Remove(energies0, maxI));
  }

  method RepairStep(p: IsingProblem, energies0: seq<Cached>, out: array<int>, from: nat, n: nat,
                    ghost x0: seq<int>, ghost order0: seq<nat>, ghost gain0: real)
    returns (energies: seq<Cached>, ghost gain: real)
    requires from + n <= out.Length && p.Valid() && |p.h| <= n && energies0 != []
    requires Accurate(p, out[from..from + n], energies0)
    requires Continues(p, x0, order0, out[from..from + n], Order(energies0), gain0)
    modifies out
    ensures SameOutside(out[..], old(out[..]), from, n)
    ensures Accurate(p, out[from..from + n], energies) && |energies| == |energies0| - 1
    ensures Continues(p, x0, order0, out[from..from + n], Order(energies), gain)
  {
    ghost var x := out[from..from + n];
    ghost var k;
    energies, k := Decide(p, energies0, out, from, n);
    assert energies0[k].1 == Order(energies0)[k] && energies0[k].0 == Field(p, SpinsOf(x), energies0[k].1);
    ContinuesStep(p, x0, order0, x, Order(energies0), gain0, k);
    gain := gain0 + AbsReal(energies0[k].0);
    assert |Order(energies)| == |energies|;
  }

  method Repair(p: IsingProblem, energies0: seq<Cached>, out: array<int>, from: nat, n: nat) returns (ghost gain: real)
    requires from + n <= out.Length && p.Valid() && |p.h| <= n
    requires Accurate(p, out[from..from + n], energies0)
    modifies out
    ensures SameOutside(out[..], old(out[..]), from, n)
    ensures Greedy(p, old(out[from..from + n]), Order(energies0), out[from..from + n], gain)
  {
    var energies := energies0;
    gain := 0.0;
    ghost var x0, order0 := out[from..from + n], Order(energies0);
    RunStarts(p, x0, order0);
    while energies != []
      invariant SameOutside(out[..], old(out[..]), from, n)
      invariant Accurate(p, out[from..from + n], energies)
      invariant Continues(p, x0, order0, out[from..from + n], Order(energies), gain)
      decreases |energies|
    {
      energies, gain := RepairStep(p, energies, out, from, n, x0, order0, gain);
    }
    RunEnds(p, x0, order0, out[from..from + n], Order(energies), gain);
  }

  lemma RunStarts(p: IsingProblem, x: seq<int>, order: seq<nat>)
    ensures Continues(p, x, order, x, order, 0.0)
  {
    forall y, g | Greedy(p, x, order, y, g)
      ensures Greedy(p, x, order, y, g + 0.0)
    {
      assert g + 0.0 == g;
    }
  }

  lemma RunEnds(p: IsingProblem, x0: seq<int>, order0: seq<nat>, x: seq<int>, order: seq<nat>, gain: real)
    requires Continues(p, x0, order0, x, order, gain) && order == []
    ensures Greedy(p, x0, order0, x, gain)
  {
    assert Greedy(p, x, order, x, 0.0);
    assert 0.0 + gain == gain;
  }

  // ---------------------------------------------------------------- whole buffers

  /** `y` comes from `solution` by reading the chains and repairing the broken ones greedily. */
  ghost predicate Repaired(p: IsingProblem, solution: seq<int>, embeddings: seq<Chain>, before: seq<int>, y: seq<int>)
    requires InRange(embeddings, |solution|) && |before| == |embeddings|
  {
    exists gain: real :: Greedy(p, Start(solution, embeddings, before), BrokenTo(solution, embeddings, |embeddings|), y, gain)
  }

  lemma {:induction false} BrokenToIsSet(solution: seq<int>, embeddings: seq<Chain>, n: nat)
    requires InRange(embeddings, |solution|) && n <= |embeddings|
    ensures forall c :: c in BrokenTo(solution, embeddings, n) <==> 0 <= c < n && Broken(solution, embeddings[c])
  {
    if n > 0 {
      BrokenToIsSet(solution, embeddings, n - 1);
    }
  }

  /** Broken chains are decided, all others keep their reading, and the energy is at most the average over all ways to
  decide the broken chains. */
  ghost predicate WellDecided(p: IsingProblem, solution: seq<int>, embeddings: seq<Chain>, before: seq<int>, y: seq<int>)
    requires InRange(embeddings, |solution|) && |before| == |embeddings|
  {
    && |y| == |embeddings|
    && (forall c | 0 <= c < |y| ::
          if Broken(solution, embeddings[c]) then y[c] == 1 || y[c] == -1
          else y[c] == if embeddings[c] == [] then before[c] else solution[embeddings[c][0]])
    && Energy(p, SpinsOf(y)) <= Average(p, Start(solution, embeddings, before), BrokenTo(solution, embeddings, |embeddings|))
  }

  /** Greedily repaired, and with what that is good for. */
  ghost predicate RowRepaired(p: IsingProblem, solution: seq<int>, embeddings: seq<Chain>, before: seq<int>, y: seq<int>)
    requires InRange(embeddings, |solution|) && |before| == |embeddings|
  {
    Repaired(p, solution, embeddings, before, y) && WellDecided(p, solution, embeddings, before, y)
  }

  lemma RepairedIsWellDecided(p: IsingProblem, solution: seq<int>, embeddings: seq<Chain>, before: seq<int>, y: seq<int>)
    requires p.Valid() && |p.h| <= |embeddings| && InRange(embeddings, |solution|) && |before| == |embeddings|
    requires Repaired(p, solution, embeddings, before, y)
    ensures WellDecided(p, solution, embeddings, before, y)
  {
    var x, order := Start(solution, embeddings, before), BrokenTo(solution, embeddings, |embeddings|);
    BrokenNotEmpty(solution, embeddings);
    BrokenToIsSet(solution, embeddings, |embeddings|);
    AverageAtStart(p, solution, embeddings, before);
    var gain: real :| Greedy(p, x, order, y, gain);
    GreedyEnergy(p, x, order, y, gain);
  }

  lemma AverageAtStart(p: IsingProblem, solution: seq<int>, embeddings: seq<Chain>, before: seq<int>)
    requires p.Valid() && |p.h| <= |embeddings| && InRange(embeddings, |solution|) && |before| == |embeddings|
    ensures var x := Start(solution, embeddings, before);
            Average(p, x, BrokenTo(solution, embeddings, |embeddings|)) == Energy(p, SpinsOf(x))
  {
    BrokenNotEmpty(solution, embeddings);
    AverageIsZeroFilled(p, Start(solution, embeddings, before), BrokenTo(solution, embeddings, |embeddings|));
  }

  lemma BrokenNotEmpty(solution: seq<int>, embeddings: seq<Chain>)
    requires InRange(embeddings, |solution|)
    ensures forall c | 0 <= c < |embeddings| && Broken(solution, embeddings[c]) :: embeddings[c] != []
  {
  }

  method MinimizeOne(p: IsingProblem, solution: seq<int>, embeddings: seq<Chain>, out: array<int>, from: nat)
    requires p.Valid() && |p.h| <= |embeddings| && InRange(embeddings, |solution|) && from + |embeddings| <= out.Length
    modifies out
    ensures SameOutside(out[..], old(out[..]), from, |embeddings|)
    ensures RowRepaired(p, solution, embeddings, old(out[from..from + |embeddings|]), out[from..from + |embeddings|])
  {
    var n := |embeddings|;
    var broken := ReadChains(solution, embeddings, out, from);
    ghost var x := out[from..from + n];
    var energies := InitialFields(p, out[from..from + n], broken);
    ghost var gain := Repair(p, energies, out, from, n);
    RepairedIsWellDecided(p, solution, embeddings, old(out[from..from + |embeddings|]), out[from..from + |embeddings|]);
  }

  /** Where the rows of length `n` of a flat array begin, and where the last one ends. */
  ghost function Offsets(count: nat, n: nat): (at: seq<nat>)
    ensures |at| == count + 1 && at[0] == 0
    ensures forall k, l | 0 <= k && l == k + 1 && l <= count :: at[l] == at[k] + n
    ensures forall k, l | 0 <= k < l <= count :: at[k] + n <= at[l]
  {
    if count == 0 then [0] else
      var before := Offsets(count - 1, n);
      before + [before[count - 1] + n]
  }

  lemma {:induction false} OffsetIsProduct(count: nat, n: nat, k: nat)
    requires k <= count
    ensures Offsets(count, n)[k] == k * n
  {
    if k > 0 {
      OffsetIsProduct(count, n, k - 1);
      assert Offsets(count, n)[k] == Offsets(count, n)[k - 1] + n;
      assert (k - 1) * n == k * n - n;
    }
  }

  ghost function Total(count: nat, n: nat): nat {
    Offsets(count, n)[count]
  }

  ghost function Window(flat: seq<int>, from: nat, n: nat): (r: seq<int>)
    requires from + n <= |flat|
    ensures |r| == n
  {
    flat[from..from + n]
  }

  lemma WindowSame(after: seq<int>, before: seq<int>, from: nat, n: nat, w: nat, m: nat)
    requires SameOutside(after, before, from, n) && (w + m <= from || from + n <= w) && w + m <= |before|
    ensures Window(after, w, m) == Window(before, w, m)
  {
  }

  /** The first rows are repaired. */
  ghost predicate AllRepaired(p: IsingProblem, solutions: seq<int>, src: seq<nat>, solutionLen: nat, embeddings: seq<Chain>,
                              before: seq<int>, now: seq<int>, dst: seq<nat>, k: nat)
    requires InRange(embeddings, solutionLen) && |now| == |before|
  {
    k < |src| && k < |dst| && forall l: nat | l < k ::
      src[l] + solutionLen <= |solutions| && dst[l] + |embeddings| <= |now| &&
      RowRepaired(p, Window(solutions, src[l], solutionLen), embeddings,
                  Window(before, dst[l], |embeddings|), Window(now, dst[l], |embeddings|))
  }

  lemma NextRepaired(p: IsingProblem, solutions: seq<int>, src: seq<nat>, solutionLen: nat, embeddings: seq<Chain>,
                     original: seq<int>, before: seq<int>, after: seq<int>, dst: seq<nat>, k: nat)
    requires InRange(embeddings, solutionLen) && |original| == |before| == |after| && k + 1 < |src| && k + 1 < |dst|
    requires AllRepaired(p, solutions, src, solutionLen, embeddings, original, before, dst, k)
    requires SameOutside(after, before, dst[k], |embeddings|) && forall l | 0 <= l < k :: dst[l] + |embeddings| <= dst[k]
    requires src[k] + solutionLen <= |solutions| && dst[k] + |embeddings| <= |after|
    requires RowRepaired(p, Window(solutions, src[k], solutionLen), embeddings,
                         Window(original, dst[k], |embeddings|), Window(after, dst[k], |embeddings|))
    ensures AllRepaired(p, solutions, src, solutionLen, embeddings, original, after, dst, k + 1)
  {
    forall l: nat | l < k
      ensures Window(after, dst[l], |embeddings|) == Window(before, dst[l], |embeddings|)
    {
      WindowSame(after, before, dst[k], |embeddings|, dst[l], |embeddings|);
    }
  }

  method MinimizeStep(p: IsingProblem, solutions: seq<int>, ghost src: seq<nat>, solutionLen: nat, embeddings: seq<Chain>,
                      out: array<int>, ghost original: seq<int>, ghost dst: seq<nat>, ghost k: nat, from: nat, to: nat)
    requires InRange(embeddings, solutionLen) && p.Valid() && |p.h| <= |embeddings| && |original| == out.Length
    requires k + 1 < |src| && k + 1 < |dst| && from == src[k] && to == dst[k]
    requires from + solutionLen <= |solutions| && to + |embeddings| <= out.Length
    requires forall l | 0 <= l < k :: dst[l] + |embeddings| <= to
    requires AllRepaired(p, solutions, src, solutionLen, embeddings, original, out[..], dst, k)
    requires SameOutside(out[..], original, 0, to)
    modifies out
    ensures AllRepaired(p, solutions, src, solutionLen, embeddings, original, out[..], dst, k + 1)
    ensures SameOutside(out[..], original, 0, to + |embeddings|)
  {
    ghost var before := out[..];
    assert out[to..to + |embeddings|] == Window(original, to, |embeddings|);
    MinimizeOne(p, solutions[from..from + solutionLen], embeddings, out, to);
    assert out[to..to + |embeddings|] == Window(out[..], to, |embeddings|);
    NextRepaired(p, solutions, src, solutionLen, embeddings, original, before, out[..], dst, k);
  }

  /** Reads off and repairs every solution of a flat array. */
  method MinimizeEnergy(solutions: seq<int>, solutionLen: nat, numSolutions: nat, embeddings: seq<Chain>, p: IsingProblem,
                        newSolutions: array<int>)
    returns (numNewSolutions: nat)
    requires |solutions| == Total(numSolutions, solutionLen) && newSolutions.Length >= Total(numSolutions, |embeddings|)
    requires InRange(embeddings, solutionLen) && p.Valid() && |p.h| <= |embeddings|
    modifies newSolutions
    ensures numNewSolutions == numSolutions
    ensures SameOutside(newSolutions[..], old(newSolutions[..]), 0, Total(numSolutions, |embeddings|))
    ensures AllRepaired(p, solutions, Offsets(numSolutions, solutionLen), solutionLen, embeddings,
                        old(newSolutions[..]), newSolutions[..], Offsets(numSolutions, |embeddings|), numSolutions)
  {
    ghost var src, dst, original := Offsets(numSolutions, solutionLen), Offsets(numSolutions, |embeddings|), newSolutions[..];
    var from, to := 0, 0;
    for k := 0 to numSolutions
      invariant from == src[k] && to == dst[k]
      invariant AllRepaired(p, solutions, src, solutionLen, embeddings, original, newSolutions[..], dst, k)
      invariant SameOutside(newSolutions[..], original, 0, to)
    {
      assert src[k + 1] == src[k] + solutionLen && dst[k + 1] == dst[k] + |embeddings|;
      MinimizeStep(p, solutions, src, solutionLen, embeddings, newSolutions, original, dst, k, from, to);
      from, to := from + solutionLen, to + |embeddings|;
    }
    numNewSolutions := numSolutions;
  }

  // ---------------------------------------------------------------- discarding

  ghost predicate Intact(solution: seq<int>, embeddings: seq<Chain>)
    requires InRange(embeddings, |solution|)
  {
    forall c | 0 <= c < |embeddings| :: !Broken(solution, embeddings[c])
  }

  /** The starts of the first `k` solutions that have no broken chain, in order. */
  ghost function Survivors(solutions: seq<int>, src: seq<nat>, solutionLen: nat, embeddings: seq<Chain>, k: nat): (s: seq<nat>)
    requires InRange(embeddings, solutionLen) && k <= |src| && forall l | 0 <= l < k :: src[l] + solutionLen <= |solutions|
    ensures |s| <= k
  {
    if k == 0 then [] else
      Survivors(solutions, src, solutionLen, embeddings, k - 1) +
      if Intact(Window(solutions, src[k - 1], solutionLen), embeddings) then [src[k - 1]] else []
  }

  /** Chains are written until a broken one is met. */
  method DiscardOne(solution: seq<int>, embeddings: seq<Chain>, out: array<int>, from: nat) returns (ok: bool)
    requires InRange(embeddings, |solution|) && from + |embeddings| <= out.Length
    modifies out
    ensures SameOutside(out[..], old(out[..]), from, |embeddings|)
    ensures ok <==> Intact(solution, embeddings)
    ensures ok ==> out[from..from + |embeddings|] == Start(solution, embeddings, old(out[from..from + |embeddings|]))
    ensures forall c | 0 <= c < |embeddings| && embeddings[c] == [] :: out[from + c] == old(out[from + c])
  {
    ghost var before := out[from..from + |embeddings|];
    ok := true;
    var c := 0;
    while ok && c < |embeddings|
      invariant 0 <= c <= |embeddings| && SameOutside(out[..], old(out[..]), from, |embeddings|)
      invariant forall d | c <= d < |embeddings| :: out[from + d] == before[d]
      invariant forall d | 0 <= d < c && embeddings[d] == [] :: out[from + d] == before[d]
      invariant ok ==> forall d | 0 <= d < c :: !Broken(solution, embeddings[d]) && out[from + d] == StartValue(solution, embeddings[d], before[d])
      invariant !ok ==> !Intact(solution, embeddings)
    {
      if embeddings[c] != [] {
        ok := IsIntact(solution, embeddings[c]);
        out[from + c] := solution[embeddings[c][0]];
      }
      c := c + 1;
    }
  }

  /** `y` is the reading of the solution at `from`, which has no broken chain; `before` shows through empty chains. */
  ghost predicate Kept(solutions: seq<int>, from: nat, solutionLen: nat, embeddings: seq<Chain>, before: seq<int>, y: seq<int>)
    requires InRange(embeddings, solutionLen) && |before| == |embeddings|
  {
    && from + solutionLen <= |solutions|
    && Intact(Window(solutions, from, solutionLen), embeddings)
    && y == Start(Window(solutions, from, solutionLen), embeddings, before)
  }

  /** From `to` on only entries of nonempty chains in the first `|embeddings|` places may have been overwritten. */
  ghost predicate Untouched(now: seq<int>, original: seq<int>, embeddings: seq<Chain>, to: nat) {
    |now| == |original| &&
    forall q | to <= q < |now| && (q < to + |embeddings| ==> embeddings[q - to] == []) :: now[q] == original[q]
  }

  lemma SameStart(solution: seq<int>, embeddings: seq<Chain>, a: seq<int>, b: seq<int>)
    requires InRange(embeddings, |solution|) && |a| == |b| == |embeddings|
    requires forall c | 0 <= c < |embeddings| && embeddings[c] == [] :: a[c] == b[c]
    ensures Start(solution, embeddings, a) == Start(solution, embeddings, b)
  {
  }

  /** Row number t holds the reading of the t-th solution of the list. */
  ghost predicate AllKept(solutions: seq<int>, solutionLen: nat, embeddings: seq<Chain>, list: seq<nat>, original: seq<int>,
                          now: seq<int>, dst: seq<nat>)
    requires InRange(embeddings, solutionLen) && |now| == |original|
  {
    |list| < |dst| && forall t: nat | t < |list| ::
      dst[t] + |embeddings| <= |now| &&
      Kept(solutions, list[t], solutionLen, embeddings, Window(original, dst[t], |embeddings|), Window(now, dst[t], |embeddings|))
  }

  lemma RowsStay(solutions: seq<int>, solutionLen: nat, embeddings: seq<Chain>, list: seq<nat>, original: seq<int>,
                 before: seq<int>, after: seq<int>, dst: seq<nat>, to: nat)
    requires InRange(embeddings, solutionLen) && |before| == |original|
    requires AllKept(solutions, solutionLen, embeddings, list, original, before, dst)
    requires SameOutside(after, before, to, |embeddings|) && forall t | 0 <= t < |list| :: dst[t] + |embeddings| <= to
    ensures AllKept(solutions, solutionLen, embeddings, list, original, after, dst)
  {
    forall t: nat | t < |list|
      ensures Window(after, dst[t], |embeddings|) == Window(before, dst[t], |embeddings|)
    {
      WindowSame(after, before, to, |embeddings|, dst[t], |embeddings|);
    }
  }

  lemma RowAdded(solutions: seq<int>, from: nat, solutionLen: nat, embeddings: seq<Chain>, list: seq<nat>, original: seq<int>,
                 now: seq<int>, dst: seq<nat>)
    requires InRange(embeddings, solutionLen) && |now| == |original| && |list| + 1 < |dst|
    requires AllKept(solutions, solutionLen, embeddings, list, original, now, dst)
    requires dst[|list|] + |embeddings| <= |now|
    requires Kept(solutions, from, solutionLen, embeddings, Window(original, dst[|list|], |embeddings|), Window(now, dst[|list|], |embeddings|))
    ensures AllKept(solutions, solutionLen, embeddings, list + [from], original, now, dst)
  {
    var more := list + [from];
    forall t: nat | t < |more|
      ensures dst[t] + |embeddings| <= |now|
      ensures Kept(solutions, more[t], solutionLen, embeddings, Window(original, dst[t], |embeddings|), Window(now, dst[t], |embeddings|))
    {
      assert t < |list| ==> more[t] == list[t];
    }
  }

  /** Processes the solution at `from` with `list` kept so far. */
  method DiscardStep(solutions: seq<int>, from: nat, solutionLen: nat, embeddings: seq<Chain>, out: array<int>, to: nat,
                     ghost list: seq<nat>, ghost original: seq<int>, ghost dst: seq<nat>)
    returns (ok: bool, ghost kept: seq<nat>)
    requires from + solutionLen <= |solutions| && InRange(embeddings, solutionLen) && |original| == out.Length
    requires |list| + 1 < |dst| && to == dst[|list|] && to + |embeddings| <= out.Length
    requires forall t | 0 <= t < |list| :: dst[t] + |embeddings| <= to
    requires AllKept(solutions, solutionLen, embeddings, list, original, out[..], dst)
    requires Untouched(out[..], original, embeddings, to)
    modifies out
    ensures kept == list + if Intact(Window(solutions, from, solutionLen), embeddings) then [from] else []
    ensures |kept| == if ok then |list| + 1 else |list|
    ensures AllKept(solutions, solutionLen, embeddings, kept, original, out[..], dst)
    ensures Untouched(out[..], original, embeddings, if ok then to + |embeddings| else to)
  {
    ghost var before, solution := out[..], Window(solutions, from, solutionLen);
    ok := DiscardOne(solutions[from..from + solutionLen], embeddings, out, to);
    RowsStay(solutions, solutionLen, embeddings, list, original, before, out[..], dst, to);
    kept := list;
    if ok {
      kept := list + [from];
      assert out[to..to + |embeddings|] == Start(solution, embeddings, before[to..to + |embeddings|]);
      SameStart(solution, embeddings, before[to..to + |embeddings|], Window(original, to, |embeddings|));
      RowAdded(solutions, from, solutionLen, embeddings, list, original, out[..], dst);
    }
  }

  lemma NextSurvivor(solutions: seq<int>, src: seq<nat>, solutionLen: nat, embeddings: seq<Chain>, k: nat, list: seq<nat>, next: seq<nat>)
    requires InRange(embeddings, solutionLen) && k < |src| && forall l | 0 <= l <= k :: src[l] + solutionLen <= |solutions|
    requires list == Survivors(solutions, src, solutionLen, embeddings, k)
    requires next == list + if Intact(Window(solutions, src[k], solutionLen), embeddings) then [src[k]] else []
    ensures next == Survivors(solutions, src, solutionLen, embeddings, k + 1)
  {
  }

  /** The first `k` solutions are done: `list` has the kept ones, the next one goes to `to`. */
  ghost predicate DiscardedTo(solutions: seq<int>, src: seq<nat>, solutionLen: nat, embeddings: seq<Chain>, original: seq<int>,
                              now: seq<int>, dst: seq<nat>, k: nat, to: nat, list: seq<nat>)
    requires InRange(embeddings, solutionLen) && |now| == |original|
    requires k < |src| && forall l | 0 <= l < k :: src[l] + solutionLen <= |solutions|
  {
    && |list| <= k && |list| < |dst| && to == dst[|list|]
    && list == Survivors(solutions, src, solutionLen, embeddings, k)
    && AllKept(solutions, solutionLen, embeddings, list, original, now, dst)
    && Untouched(now, original, embeddings, to)
  }

  method DiscardNext(solutions: seq<int>, from: nat, ghost src: seq<nat>, solutionLen: nat, embeddings: seq<Chain>, out: array<int>, to: nat,
                     ghost k: nat, ghost list: seq<nat>, ghost original: seq<int>, ghost dst: seq<nat>)
    returns (ok: bool, ghost kept: seq<nat>)
    requires InRange(embeddings, solutionLen) && |original| == out.Length
    requires k + 1 < |src| && k + 1 < |dst| && from == src[k] && forall l | 0 <= l <= k :: src[l] + solutionLen <= |solutions|
    requires forall t, u | 0 <= t < u < |dst| :: dst[t] + |embeddings| <= dst[u] <= |original|
    requires forall t, u | 0 <= t && u == t + 1 && u < |dst| :: dst[u] == dst[t] + |embeddings|
    requires DiscardedTo(solutions, src, solutionLen, embeddings, original, out[..], dst, k, to, list)
    modifies out
    ensures |kept| == if ok then |list| + 1 else |list|
    ensures DiscardedTo(solutions, src, solutionLen, embeddings, original, out[..], dst, k + 1, if ok then to + |embeddings| else to, kept)
  {
    assert dst[|list| + 1] == dst[|list|] + |embeddings|;
    ok, kept := DiscardStep(solutions, from, solutionLen, embeddings, out, to, list, original, dst);
    NextSurvivor(solutions, src, solutionLen, embeddings, k, list, kept);
  }

  /** Keeps the solutions without broken chains, in order, at the front of the buffer. */
  method Discard(solutions: seq<int>, solutionLen: nat, numSolutions: nat, embeddings: seq<Chain>, newSolutions: array<int>)
    returns (numNewSolutions: nat, ghost list: seq<nat>)
    requires |solutions| == Total(numSolutions, solutionLen) && newSolutions.Length >= Total(numSolutions, |embeddings|)
    requires InRange(embeddings, solutionLen)
    modifies newSolutions
    ensures list == Survivors(solutions, Offsets(numSolutions, solutionLen), solutionLen, embeddings, numSolutions)
    ensures numNewSolutions == |list|
    ensures AllKept(solutions, solutionLen, embeddings, list, old(newSolutions[..]), newSolutions[..], Offsets(numSolutions, |embeddings|))
  {
    ghost var src, dst := Offsets(numSolutions, solutionLen), Offsets(numSolutions, |embeddings|);
    ghost var original := newSolutions[..];
    var from: nat, to: nat := 0, 0;
    numNewSolutions, list := 0, [];
    for k := 0 to numSolutions
      invariant from == src[k] && numNewSolutions == |list|
      invariant DiscardedTo(solutions, src, solutionLen, embeddings, original, newSolutions[..], dst, k, to, list)
    {
      assert src[k + 1] == src[k] + solutionLen;
      var ok;
      ok, list := DiscardNext(solutions, from, src, solutionLen, embeddings, newSolutions, to, k, list, original, dst);
      from := from + solutionLen;
      if ok {
        to := to + |embeddings|;
        numNewSolutions := numNewSolutions + 1;
      }
    }
  }
}
