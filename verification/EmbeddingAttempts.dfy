/** Attempts at placing one component, and which of them is kept. */
module EmbeddingAttempts {
  import opened CompressedMatrices
  import opened GraphComponents
  import opened Queues
  import opened Results

  // ---------------------------------------------------------------- bags and chains of one attempt

  /** What the vertex additions leave behind: for each problem vertex, in a random order, the hardware vertices it
  occupies. The heuristic itself is not part of this model; it may give up without a result. */
  datatype Attempt = Attempt(interrupted: bool, result: Option<(seq<seq<bool>>, seq<nat>)>)

  /** The attempt at placing the first graph on the second, at some time. */
  type Heuristic = (Csr<int>, Csr<int>, nat) -> Attempt

  /** `order` is a permutation of the problem vertices, and row j belongs to vertex `order[j]`. */
  ghost predicate WellFormed(best: seq<seq<bool>>, order: seq<nat>, m: nat, n: nat) {
    && |best| == |order| == m && (forall j | 0 <= j < m :: |best[j]| == n)
    && Distinct(order) && (forall j | 0 <= j < m :: order[j] < m)
  }

  ghost predicate GivesPlacements(heuristic: Heuristic) {
    forall qc: Csr<int>, aw: Csr<int>, t: nat ::
      var r := heuristic(qc, aw, t).result; r.Some? ==> WellFormed(r.value.0, r.value.1, qc.numRows, aw.numRows)
  }

  /** The problem vertices of the first `j` rows that occupy hardware vertex `i`. */
  ghost function BagTo(best: seq<seq<bool>>, order: seq<nat>, i: nat, j: nat): (bag: seq<nat>)
    requires j <= |best| == |order| && forall b | 0 <= b < j :: i < |best[b]|
  {
    if j == 0 then [] else BagTo(best, order, i, j - 1) + if best[j - 1][i] then [order[j - 1]] else []
  }

  ghost function BagsOf(best: seq<seq<bool>>, order: seq<nat>, m: nat, n: nat): (bags: seq<seq<nat>>)
    requires WellFormed(best, order, m, n)
    ensures |bags| == n && forall i | 0 <= i < n :: bags[i] == BagTo(best, order, i, m)
  {
    seq(n, i requires 0 <= i < n => BagTo(best, order, i, m))
  }

  method VertexBags(best: seq<seq<bool>>, order: seq<nat>, m: nat, n: nat) returns (bags: seq<seq<nat>>)
    requires WellFormed(best, order, m, n)
    ensures bags == BagsOf(best, order, m, n)
  {
    bags := seq(n, _ => []);
    for i := 0 to n
      invariant |bags| == n && (forall a | i <= a < n :: bags[a] == [])
      invariant forall a | 0 <= a < i :: bags[a] == BagTo(best, order, a, m)
    {
      for j := 0 to m
        invariant |bags| == n && (forall a | i < a < n :: bags[a] == [])
        invariant forall a | 0 <= a < i :: bags[a] == BagTo(best, order, a, m)
        invariant bags[i] == BagTo(best, order, i, j)
      {
        if best[j][i] {
          bags := bags[i := bags[i] + [order[j]]];
        }
      }
    }
  }

  /** The hardware vertices below `upto` that a row occupies, ascending. */
  ghost function Positions(row: seq<bool>, upto: nat): (r: seq<nat>)
    requires upto <= |row|
    ensures forall k | 0 <= k < |r| :: r[k] < upto
  {
    if upto == 0 then [] else Positions(row, upto - 1) + if row[upto - 1] then [upto - 1] else []
  }

  lemma {:induction false} PositionsHold(row: seq<bool>, upto: nat)
    requires upto <= |row|
    ensures forall a, b | 0 <= a < b < |Positions(row, upto)| :: Positions(row, upto)[a] < Positions(row, upto)[b]
    ensures forall i: nat :: i in Positions(row, upto) <==> i < upto && row[i]
  {
    if upto > 0 {
      PositionsHold(row, upto - 1);
    }
  }

  /** Each problem vertex has the hardware vertices of its row. */
  ghost predicate AreChains(chains: seq<seq<nat>>, best: seq<seq<bool>>, order: seq<nat>, m: nat, n: nat)
    requires WellFormed(best, order, m, n)
  {
    |chains| == m && forall j | 0 <= j < m :: chains[order[j]] == Positions(best[j], n)
  }

  method VertexChains(best: seq<seq<bool>>, order: seq<nat>, m: nat, n: nat) returns (chains: seq<seq<nat>>)
    requires WellFormed(best, order, m, n)
    ensures AreChains(chains, best, order, m, n)
  {
    chains := seq(m, _ => []);
    for j := 0 to m
      invariant |chains| == m
      invariant forall b | 0 <= b < j :: chains[order[b]] == Positions(best[b], n)
      invariant forall c | 0 <= c < m && (forall b | 0 <= b < j :: order[b] != c) :: chains[c] == []
    {
      var target, chain: seq<nat> := order[j], [];
      for i := 0 to n
        invariant chain == Positions(best[j], i)
      {
        if best[j][i] {
          chain := chain + [i];
        }
      }
      assert chains[target] == [];
      chains := chains[target := chains[target] + chain];
    }
  }

  /** Every problem vertex has a row. */
  lemma {:induction false} OrderCovers(order: seq<nat>, m: nat, c: nat)
    requires Distinct(order) && |order| == m && (forall j | 0 <= j < m :: order[j] < m) && c < m
    ensures exists j :: 0 <= j < m && order[j] == c
  {
    if forall j | 0 <= j < m :: order[j] != c {
      var more := order + [c];
      PushBack(order, c);
      DistinctBelow(more, m);
    }
  }

  /** Every member of a chain has the chain's vertex in its bag. */
  ghost predicate Linked(bags: seq<seq<nat>>, chains: seq<seq<nat>>, n: nat) {
    && |bags| == n
    && (forall c | 0 <= c < |chains| :: Distinct(chains[c]))
    && (forall c, i: nat | 0 <= c < |chains| && i in chains[c] :: i < n && c in bags[i])
  }

  lemma {:induction false} BagHolds(best: seq<seq<bool>>, order: seq<nat>, i: nat, j: nat, b: nat)
    requires b < j <= |best| == |order| && (forall a | 0 <= a < j :: i < |best[a]|) && best[b][i]
    ensures order[b] in BagTo(best, order, i, j)
  {
    if b < j - 1 {
      BagHolds(best, order, i, j - 1, b);
    }
  }

  lemma BagsLinkChains(best: seq<seq<bool>>, order: seq<nat>, m: nat, n: nat, bags: seq<seq<nat>>, chains: seq<seq<nat>>)
    requires WellFormed(best, order, m, n) && bags == BagsOf(best, order, m, n) && AreChains(chains, best, order, m, n)
    ensures Linked(bags, chains, n)
  {
    forall c | 0 <= c < m
      ensures Distinct(chains[c]) && forall i: nat | i in chains[c] :: i < n && c in bags[i]
    {
      OrderCovers(order, m, c);
      var j :| 0 <= j < m && order[j] == c;
      PositionsHold(best[j], n);
      forall i: nat | i in chains[c]
        ensures i < n && c in bags[i]
      {
        BagHolds(best, order, i, m, j);
      }
    }
  }

  lemma LinkedAt(bags: seq<seq<nat>>, chains: seq<seq<nat>>, n: nat, c: nat, i: nat)
    requires Linked(bags, chains, n) && c < |chains| && i in chains[c]
    ensures i < n && c in bags[i]
  {
  }

  /** No hardware vertex holds more than one problem vertex. */
  ghost predicate WidthOne(bags: seq<seq<nat>>) {
    forall i | 0 <= i < |bags| :: |bags[i]| <= 1
  }

  lemma WidthOneSeparates(bags: seq<seq<nat>>, chains: seq<seq<nat>>, n: nat)
    requires Linked(bags, chains, n) && WidthOne(bags)
    ensures Separate(chains)
  {
    forall c, d | 0 <= c < d < |chains|
      ensures Members(chains[c]) !! Members(chains[d])
    {
      forall i | i in Members(chains[c])
        ensures i !in Members(chains[d])
      {
        LinkedAt(bags, chains, n, c, i);
        var k :| 0 <= k < |bags[i]| && bags[i][k] == c;
        assert d in bags[i] ==> exists l :: 0 <= l < |bags[i]| && bags[i][l] == d;
      }
    }
  }

  // ---------------------------------------------------------------- which attempt is kept

  /** The size of the largest bag. */
  ghost function Widest(bags: seq<seq<nat>>): (w: nat)
    ensures forall i | 0 <= i < |bags| :: |bags[i]| <= w
    ensures bags != [] ==> exists i :: 0 <= i < |bags| && |bags[i]| == w
  {
    if bags == [] then 0 else
      var l := |bags| - 1;
      var w := Widest(bags[..l]);
      assert bags[..l] != [] ==> exists i :: 0 <= i < |bags[..l]| && |bags[..l][i]| == w;
      if |bags[l]| > w then |bags[l]| else w
  }

  method MaxWidth(bags: seq<seq<nat>>) returns (w: nat)
    requires bags != []
    ensures w == Widest(bags)
  {
    w := |bags[0]|;
    assert bags[..1][..0] == [];
    for i := 1 to |bags|
      invariant w == Widest(bags[..i])
    {
      assert bags[..i + 1][..i] == bags[..i];
      if |bags[i]| > w {
        w := |bags[i]|;
      }
    }
    assert bags[..|bags|] == bags;
  }

  const INT_MAX := 0x7fff_ffff

  /** The width of an attempt; one without a result never replaces another. */
  ghost function WidthAt(heuristic: Heuristic, qc: Csr<int>, aw: Csr<int>, t: nat): nat
    requires GivesPlacements(heuristic)
  {
    var r := heuristic(qc, aw, t).result;
    if r.Some? then Widest(BagsOf(r.value.0, r.value.1, qc.numRows, aw.numRows)) else INT_MAX
  }

  ghost function Widths(heuristic: Heuristic, qc: Csr<int>, aw: Csr<int>): nat -> nat
    requires GivesPlacements(heuristic)
  {
    (t: nat) => WidthAt(heuristic, qc, aw, t)
  }

  /** The smallest width after time `from` and up to `end`, and the first time it occurs. */
  ghost function Narrowest(widths: nat -> nat, from: nat, end: nat): (nat, nat)
    requires from <= end
  {
    if end == from then (INT_MAX, from) else
      var (width, at) := Narrowest(widths, from, end - 1);
      if widths(end) < width then (widths(end), end) else (width, at)
  }

  /** Nothing is narrower than at time `at`, nothing before it is as narrow, and `at` is `from` if all have the largest width. */
  ghost predicate IsNarrowest(widths: nat -> nat, from: nat, end: nat, width: nat, at: nat) {
    && from <= at <= end && width <= INT_MAX && (at == from <==> width == INT_MAX)
    && (at > from ==> width == widths(at))
    && (forall t: nat | from < t <= end :: widths(t) >= width)
    && (forall t: nat | from < t < at :: widths(t) > width)
  }

  lemma {:induction false} NarrowestIsMinimum(widths: nat -> nat, from: nat, end: nat)
    requires from <= end
    ensures IsNarrowest(widths, from, end, Narrowest(widths, from, end).0, Narrowest(widths, from, end).1)
  {
    if end > from {
      NarrowestIsMinimum(widths, from, end - 1);
    }
  }

  ghost predicate InterruptedAt(heuristic: Heuristic, qc: Csr<int>, aw: Csr<int>, from: nat, t: nat) {
    t > from && heuristic(qc, aw, t).interrupted
  }

  /** After time `t` another attempt is made. */
  ghost predicate GoesOn(heuristic: Heuristic, qc: Csr<int>, aw: Csr<int>, tries: nat, late: nat -> bool, from: nat, t: nat)
    requires GivesPlacements(heuristic) && from <= t
  {
    t < from + tries && !late(t) && !InterruptedAt(heuristic, qc, aw, from, t) && Narrowest(Widths(heuristic, qc, aw), from, t).0 != 1
  }

  /** Attempts were made from time `from` on and ended at time `end`. */
  ghost predicate Tried(heuristic: Heuristic, qc: Csr<int>, aw: Csr<int>, tries: nat, late: nat -> bool, from: nat, end: nat)
    requires GivesPlacements(heuristic)
  {
    && from <= end
    && (forall t | from <= t < end :: GoesOn(heuristic, qc, aw, tries, late, from, t))
    && !GoesOn(heuristic, qc, aw, tries, late, from, end)
  }

  /** What is kept of the attempts up to time `end`. */
  ghost predicate Kept(heuristic: Heuristic, qc: Csr<int>, aw: Csr<int>, from: nat, end: nat, width: nat, bags: seq<seq<nat>>, chains: seq<seq<nat>>)
    requires GivesPlacements(heuristic) && from <= end
  {
    var (w, at) := Narrowest(Widths(heuristic, qc, aw), from, end);
    width == w && if at == from then bags == chains == [] else IsResult(heuristic(qc, aw, at), qc.numRows, aw.numRows, bags, chains)
  }

  ghost predicate IsResult(attempt: Attempt, m: nat, n: nat, bags: seq<seq<nat>>, chains: seq<seq<nat>>) {
    && attempt.result.Some? && WellFormed(attempt.result.value.0, attempt.result.value.1, m, n)
    && bags == BagsOf(attempt.result.value.0, attempt.result.value.1, m, n)
    && AreChains(chains, attempt.result.value.0, attempt.result.value.1, m, n)
  }

  /** Time `tick` has come, with what is kept of the attempts so far. */
  ghost predicate Trying(heuristic: Heuristic, qc: Csr<int>, aw: Csr<int>, tries: nat, late: nat -> bool, from: nat, tick: nat,
                         width: nat, bags: seq<seq<nat>>, chains: seq<seq<nat>>, interrupted: bool)
    requires GivesPlacements(heuristic)
  {
    && from <= tick <= from + tries && interrupted == InterruptedAt(heuristic, qc, aw, from, tick)
    && Kept(heuristic, qc, aw, from, tick, width, bags, chains)
    && forall t | from <= t < tick :: GoesOn(heuristic, qc, aw, tries, late, from, t)
  }

  /** Repeats attempts until one has width 1, keeping the narrowest. `late` answers the clock. */
  method TryComponent(qc: Csr<int>, aw: Csr<int>, tries: nat, heuristic: Heuristic, late: nat -> bool, from: nat)
    returns (width: nat, bags: seq<seq<nat>>, chains: seq<seq<nat>>, interrupted: bool, tick: nat)
    requires aw.numRows > 0 && GivesPlacements(heuristic)
    ensures Tried(heuristic, qc, aw, tries, late, from, tick) && interrupted == InterruptedAt(heuristic, qc, aw, from, tick)
    ensures Kept(heuristic, qc, aw, from, tick, width, bags, chains)
    ensures width <= 1 ==> |chains| == qc.numRows && Linked(bags, chains, aw.numRows) && WidthOne(bags)
  {
    width, bags, chains, interrupted, tick := INT_MAX, [], [], false, from;
    var tryCount, finished := 0, false;
    while !finished && !interrupted && tryCount < tries && !late(tick)
      invariant tick == from + tryCount && finished == (width == 1)
      invariant Trying(heuristic, qc, aw, tries, late, from, tick, width, bags, chains, interrupted)
      decreases tries - tryCount
    {
      width, bags, chains, interrupted := TryOnce(qc, aw, tries, heuristic, late, from, tick, width, bags, chains, interrupted);
      finished := width == 1;
      tick := tick + 1;
      tryCount := tryCount + 1;
    }
    Ended(heuristic, qc, aw, tries, late, from, tick, width, bags, chains, interrupted);
  }

  lemma Ended(heuristic: Heuristic, qc: Csr<int>, aw: Csr<int>, tries: nat, late: nat -> bool, from: nat, tick: nat,
              width: nat, bags: seq<seq<nat>>, chains: seq<seq<nat>>, interrupted: bool)
    requires GivesPlacements(heuristic) && Trying(heuristic, qc, aw, tries, late, from, tick, width, bags, chains, interrupted)
    requires width == 1 || interrupted || tick == from + tries || late(tick)
    ensures Tried(heuristic, qc, aw, tries, late, from, tick)
    ensures width <= 1 ==> |chains| == qc.numRows && Linked(bags, chains, aw.numRows) && WidthOne(bags)
  {
    if width <= 1 {
      KeptIsLinked(heuristic, qc, aw, from, tick, width, bags, chains);
    }
  }

  method TryOnce(qc: Csr<int>, aw: Csr<int>, ghost tries: nat, heuristic: Heuristic, ghost late: nat -> bool, ghost from: nat, tick: nat,
                 width0: nat, bags0: seq<seq<nat>>, chains0: seq<seq<nat>>, ghost interrupted0: bool)
    returns (width: nat, bags: seq<seq<nat>>, chains: seq<seq<nat>>, interrupted: bool)
    requires aw.numRows > 0 && GivesPlacements(heuristic)
    requires Trying(heuristic, qc, aw, tries, late, from, tick, width0, bags0, chains0, interrupted0)
    requires width0 != 1 && !interrupted0 && tick < from + tries && !late(tick)
    ensures Trying(heuristic, qc, aw, tries, late, from, tick + 1, width, bags, chains, interrupted)
  {
    assert GoesOn(heuristic, qc, aw, tries, late, from, tick);
    var attempt := heuristic(qc, aw, tick + 1);
    interrupted := attempt.interrupted;
    width, bags, chains := KeepNarrower(qc, aw, heuristic, attempt, from, tick + 1, width0, bags0, chains0);
  }

  method KeepNarrower(qc: Csr<int>, aw: Csr<int>, ghost heuristic: Heuristic, attempt: Attempt, ghost from: nat, ghost tick: nat,
                      width0: nat, bags0: seq<seq<nat>>, chains0: seq<seq<nat>>)
    returns (width: nat, bags: seq<seq<nat>>, chains: seq<seq<nat>>)
    requires aw.numRows > 0 && GivesPlacements(heuristic) && from < tick && attempt == heuristic(qc, aw, tick)
    requires Kept(heuristic, qc, aw, from, tick - 1, width0, bags0, chains0)
    ensures Kept(heuristic, qc, aw, from, tick, width, bags, chains)
  {
    width, bags, chains := width0, bags0, chains0;
    NarrowestIsMinimum(Widths(heuristic, qc, aw), from, tick - 1);
    if attempt.result.Some? {
      var (best, order) := attempt.result.value;
      var bags1 := VertexBags(best, order, qc.numRows, aw.numRows);
      var chains1 := VertexChains(best, order, qc.numRows, aw.numRows);
      var width1 := MaxWidth(bags1);
      if width1 < width {
        width, bags, chains := width1, bags1, chains1;
      }
    }
  }

  lemma KeptIsLinked(heuristic: Heuristic, qc: Csr<int>, aw: Csr<int>, from: nat, end: nat, width: nat, bags: seq<seq<nat>>, chains: seq<seq<nat>>)
    requires GivesPlacements(heuristic) && from <= end && Kept(heuristic, qc, aw, from, end, width, bags, chains) && width <= 1
    ensures |chains| == qc.numRows && Linked(bags, chains, aw.numRows) && WidthOne(bags)
  {
    NarrowestIsMinimum(Widths(heuristic, qc, aw), from, end);
    var at := Narrowest(Widths(heuristic, qc, aw), from, end).1;
    var (best, order) := heuristic(qc, aw, at).result.value;
    BagsLinkChains(best, order, qc.numRows, aw.numRows, bags, chains);
  }
}
