/** The component loop that searches an embedding: each connected component of the problem is placed on the
hardware vertices that earlier components left over. */
module EmbeddingSearch {
  import opened CompressedMatrices
  import opened EmbeddingAttempts
  import opened GraphComponents
  import opened Graphs
  import opened Queues
  import opened Results

  // ---------------------------------------------------------------- the graphs of one component

  ghost predicate IsAscending(r: seq<nat>) {
    forall i, j | 0 <= i < j < |r| :: r[i] < r[j]
  }

  /** The set in ascending order. */
  method Ascending(s: set<nat>) returns (r: seq<nat>)
    ensures IsAscending(r) && Members(r) == s && |r| == |s|
  {
    r := [];
    var rest := s;
    while rest != {}
      invariant rest <= s && IsAscending(r) && Members(r) == s - rest && |r| == |s| - |rest|
      invariant forall v, w | v in r && w in rest :: v < w
    {
      var least := LeastMember(rest);
      ghost var before := r;
      assert forall k | 0 <= k < |before| :: before[k] in before;
      r := r + [least];
      assert Members(r) == Members(before) + {least};
      rest := rest - {least};
    }
  }

  method LeastMember(s: set<nat>) returns (least: nat)
    requires s != {}
    ensures least in s && forall v | v in s :: least <= v
  {
    least :| least in s;
    var rest := s - {least};
    while rest != {}
      invariant rest <= s && least in s && forall v | v in s && v !in rest :: least <= v
    {
      var v :| v in rest;
      if v < least {
        least := v;
      }
      rest := rest - {v};
    }
  }

  /** `g` is the part of a graph that lies between the listed vertices, which are numbered by their places in the list. */
  ghost predicate Induces(g: Csr<int>, adj: map<Key, int>, vertices: seq<nat>) {
    && g.Valid() && g.numRows == g.numCols == |vertices|
    && (forall k | 0 <= k < |g.values| :: g.values[k] == 1)
    && (forall i: nat, j: nat | i < |vertices| && j < |vertices| ::
          (i, j) in g.View() <==> (vertices[i], vertices[j]) in adj)
  }

  method PlacesOf(vertices: seq<nat>) returns (index: map<nat, nat>)
    requires Distinct(vertices)
    ensures forall v: nat :: v in index <==> v in vertices
    ensures forall v | v in index :: index[v] < |vertices| && vertices[index[v]] == v
  {
    index := map[];
    for i := 0 to |vertices|
      invariant forall v: nat :: v in index <==> v in vertices[..i]
      invariant forall v | v in index :: index[v] < i && vertices[index[v]] == v
    {
      assert vertices[..i + 1] == vertices[..i] + [vertices[i]];
      index := index[vertices[i] := i];
    }
    assert vertices[..|vertices|] == vertices;
  }

  /** The entries between listed vertices that come from keys outside `rest`. */
  ghost predicate Induced(m: map<Key, int>, adj: map<Key, int>, rest: set<Key>, vertices: seq<nat>) {
    && (forall key | key in m :: key.0 < |vertices| && key.1 < |vertices| && m[key] == 1)
    && (forall i: nat, j: nat | i < |vertices| && j < |vertices| ::
          (i, j) in m <==> (vertices[i], vertices[j]) in adj && (vertices[i], vertices[j]) !in rest)
  }

  method InducedGraph(adj: map<Key, int>, vertices: seq<nat>) returns (g: Csr<int>)
    requires Distinct(vertices)
    ensures Induces(g, adj, vertices)
  {
    var index := PlacesOf(vertices);
    var m: map<Key, int> := map[];
    var rest := adj.Keys;
    while rest != {}
      invariant rest <= adj.Keys && Induced(m, adj, rest, vertices)
    {
      var key: Key :| key in rest;
      m := AddInduced(m, adj, rest, vertices, index, key);
      rest := rest - {key};
    }
    var c :- assert FromMap(|vertices|, |vertices|, m);
    g := c;
    forall k: nat | k < |g.values|
      ensures g.values[k] == 1
    {
      g.ViewAt(k);
    }
  }

  method AddInduced(m0: map<Key, int>, ghost adj: map<Key, int>, ghost rest: set<Key>, ghost vertices: seq<nat>, index: map<nat, nat>, key: Key)
    returns (m: map<Key, int>)
    requires Distinct(vertices) && Induced(m0, adj, rest, vertices) && key in rest && rest <= adj.Keys
    requires forall v: nat :: v in index <==> v in vertices
    requires forall v | v in index :: index[v] < |vertices| && vertices[index[v]] == v
    ensures Induced(m, adj, rest - {key}, vertices)
  {
    m := m0;
    if key.0 in index && key.1 in index {
      m := InsertNew(m, (index[key.0], index[key.1]), 1);
    }
    forall i: nat, j: nat | i < |vertices| && j < |vertices|
      ensures (i, j) in m <==> (vertices[i], vertices[j]) in adj && (vertices[i], vertices[j]) !in rest - {key}
    {
      assert vertices[i] in index && vertices[j] in index;
      assert (vertices[i], vertices[j]) == key <==> key.0 in index && key.1 in index && (i, j) == (index[key.0], index[key.1]);
    }
  }

  // ---------------------------------------------------------------- placing one component

  ghost function InChains(embeddings: seq<seq<nat>>): (s: set<nat>)
    ensures forall q: nat :: q in s <==> exists v :: 0 <= v < |embeddings| && q in embeddings[v]
  {
    set v, q | 0 <= v < |embeddings| && q in embeddings[v] :: q
  }

  /** Chains are duplicate-free and pairwise disjoint, and the working set is what they leave of `all`. */
  ghost predicate Placed(embeddings: seq<seq<nat>>, working: set<nat>, all: set<nat>) {
    && Separate(embeddings) && (forall v | 0 <= v < |embeddings| :: Distinct(embeddings[v]))
    && InChains(embeddings) <= all && working == all - InChains(embeddings)
  }

  /** Appends one hardware vertex to one chain. */
  lemma PlaceOne(embeddings: seq<seq<nat>>, working: set<nat>, all: set<nat>, variable: nat, q: nat)
    requires Placed(embeddings, working, all) && variable < |embeddings| && q in working
    ensures Placed(embeddings[variable := embeddings[variable] + [q]], working - {q}, all)
  {
    var r := embeddings[variable := embeddings[variable] + [q]];
    assert Members(r[variable]) == Members(embeddings[variable]) + {q};
    forall v | 0 <= v < |embeddings|
      ensures q !in Members(embeddings[v])
    {
      assert q in embeddings[v] ==> q in InChains(embeddings);
    }
    PushBack(embeddings[variable], q);
    OneMoreInChains(embeddings, variable, q);
  }

  lemma OneMoreInChains(embeddings: seq<seq<nat>>, variable: nat, q: nat)
    requires variable < |embeddings|
    ensures InChains(embeddings[variable := embeddings[variable] + [q]]) == InChains(embeddings) + {q}
  {
    var r := embeddings[variable := embeddings[variable] + [q]];
    forall p: nat
      ensures p in InChains(r) <==> p in InChains(embeddings) || p == q
    {
      if p in InChains(embeddings) {
        var v :| 0 <= v < |embeddings| && p in embeddings[v];
        assert p in r[v];
      }
      assert q in r[variable];
    }
  }

  /** The vertices at the given places. */
  ghost function Mapped(working: seq<nat>, places: seq<nat>): (r: seq<nat>)
    requires forall k | 0 <= k < |places| :: places[k] < |working|
    ensures |r| == |places| && forall k | 0 <= k < |r| :: r[k] == working[places[k]]
  {
    seq(|places|, k requires 0 <= k < |places| => working[places[k]])
  }

  ghost predicate PlacesInside(chains: seq<seq<nat>>, n: nat) {
    forall c, k | 0 <= c < |chains| && 0 <= k < |chains[c]| :: chains[c][k] < n
  }

  /** The vertices of the component have their chains appended; all others are unchanged. */
  ghost predicate ChainsAppended(component: seq<nat>, working: seq<nat>, chains: seq<seq<nat>>, before: seq<seq<nat>>, after: seq<seq<nat>>, upto: nat)
    requires PlacesInside(chains, |working|) && upto <= |component| <= |chains|
  {
    && |after| == |before| && (forall i | 0 <= i < |component| :: component[i] < |before|)
    && (forall i | 0 <= i < upto :: after[component[i]] == before[component[i]] + Mapped(working, chains[i]))
    && (forall v | 0 <= v < |before| && v !in component[..upto] :: after[v] == before[v])
  }

  /** The chains from number `i` on, that one from place `j` on, can still be taken. */
  ghost predicate Available(chains: seq<seq<nat>>, working: seq<nat>, i: nat, j: nat, workingSet: set<nat>)
    requires PlacesInside(chains, |working|)
  {
    && (forall c, k | i < c < |chains| && 0 <= k < |chains[c]| :: working[chains[c][k]] in workingSet)
    && (i < |chains| ==> forall k | j <= k < |chains[i]| :: working[chains[i][k]] in workingSet)
  }

  /** Moves the chains of one component from the working set into the embedding. */
  method PlaceComponent(component: seq<nat>, working: seq<nat>, bags: seq<seq<nat>>, chains: seq<seq<nat>>, embeddings0: seq<seq<nat>>, workingSet0: set<nat>, ghost all: set<nat>)
    returns (embeddings: seq<seq<nat>>, workingSet: set<nat>)
    requires Placed(embeddings0, workingSet0, all) && Distinct(working) && Members(working) == workingSet0
    requires |chains| == |component| && Linked(bags, chains, |working|) && WidthOne(bags)
    requires Distinct(component) && forall v | v in component :: v < |embeddings0|
    ensures Placed(embeddings, workingSet, all) && PlacesInside(chains, |working|)
    ensures ChainsAppended(component, working, chains, embeddings0, embeddings, |component|)
  {
    embeddings, workingSet := embeddings0, workingSet0;
    assert forall i | 0 <= i < |component| :: component[i] in component;
    WidthOneSeparates(bags, chains, |working|);
    AllAvailable(bags, chains, working, workingSet);
    for i := 0 to |component|
      invariant Placed(embeddings, workingSet, all)
      invariant ChainsAppended(component, working, chains, embeddings0, embeddings, i)
      invariant Available(chains, working, i, 0, workingSet)
    {
      embeddings, workingSet := PlaceChain(component, i, working, chains, embeddings0, embeddings, workingSet, all);
    }
    assert component[..|component|] == component;
  }

  lemma AllAvailable(bags: seq<seq<nat>>, chains: seq<seq<nat>>, working: seq<nat>, workingSet: set<nat>)
    requires Linked(bags, chains, |working|) && Members(working) == workingSet
    ensures PlacesInside(chains, |working|) && Available(chains, working, 0, 0, workingSet)
  {
    forall c, k | 0 <= c < |chains| && 0 <= k < |chains[c]|
      ensures chains[c][k] < |working| && working[chains[c][k]] in workingSet
    {
      LinkedAt(bags, chains, |working|, c, chains[c][k]);
      assert working[chains[c][k]] in Members(working);
    }
  }

  /** The chain of one vertex is longer by `more`. */
  ghost predicate OnlyAt(before: seq<seq<nat>>, after: seq<seq<nat>>, variable: nat, more: seq<nat>) {
    && variable < |before| == |after| && after[variable] == before[variable] + more
    && (forall v | 0 <= v < |before| && v != variable :: after[v] == before[v])
  }

  method PlaceChain(component: seq<nat>, i: nat, working: seq<nat>, chains: seq<seq<nat>>, ghost original: seq<seq<nat>>,
                    embeddings0: seq<seq<nat>>, workingSet0: set<nat>, ghost all: set<nat>)
    returns (embeddings: seq<seq<nat>>, workingSet: set<nat>)
    requires i < |component| == |chains| && Distinct(component) && Distinct(working) && Separate(chains) && Distinct(chains[i])
    requires PlacesInside(chains, |working|) && Available(chains, working, i, 0, workingSet0)
    requires Placed(embeddings0, workingSet0, all) && ChainsAppended(component, working, chains, original, embeddings0, i)
    ensures Placed(embeddings, workingSet, all) && ChainsAppended(component, working, chains, original, embeddings, i + 1)
    ensures Available(chains, working, i + 1, 0, workingSet)
  {
    embeddings, workingSet := embeddings0, workingSet0;
    var variable := component[i];
    assert variable in component;
    for j := 0 to |chains[i]|
      invariant Placed(embeddings, workingSet, all)
      invariant OnlyAt(embeddings0, embeddings, variable, Mapped(working, chains[i])[..j])
      invariant Available(chains, working, i, j, workingSet)
    {
      var q := working[chains[i][j]];
      PlaceOne(embeddings, workingSet, all, variable, q);
      OthersStay(chains, working, i, j, workingSet);
      var places := Mapped(working, chains[i]);
      assert places[..j + 1] == places[..j] + [q];
      embeddings := embeddings[variable := embeddings[variable] + [q]];
      workingSet := workingSet - {q};
    }
    ChainAppended(component, i, working, chains, original, embeddings0, embeddings);
  }

  lemma ChainAppended(component: seq<nat>, i: nat, working: seq<nat>, chains: seq<seq<nat>>, original: seq<seq<nat>>,
                      before: seq<seq<nat>>, after: seq<seq<nat>>)
    requires i < |component| == |chains| && Distinct(component) && PlacesInside(chains, |working|)
    requires ChainsAppended(component, working, chains, original, before, i)
    requires OnlyAt(before, after, component[i], Mapped(working, chains[i])[..|chains[i]|])
    ensures ChainsAppended(component, working, chains, original, after, i + 1)
  {
    var places := Mapped(working, chains[i]);
    assert places[..|chains[i]|] == places;
    assert component[..i + 1] == component[..i] + [component[i]];
    assert component[i] !in component[..i];
    forall v | 0 <= v < |original| && v !in component[..i + 1]
      ensures after[v] == original[v]
    {
      assert v !in component[..i];
    }
  }

  /** Removing the vertex of one position leaves those of all later positions. */
  lemma OthersStay(chains: seq<seq<nat>>, working: seq<nat>, i: nat, j: nat, workingSet: set<nat>)
    requires i < |chains| && j < |chains[i]| && Distinct(working) && Distinct(chains[i]) && Separate(chains)
    requires PlacesInside(chains, |working|) && Available(chains, working, i, j, workingSet)
    ensures Available(chains, working, i, j + 1, workingSet - {working[chains[i][j]]})
  {
    assert chains[i][j] in Members(chains[i]);
    forall c, k | i < c < |chains| && 0 <= k < |chains[c]|
      ensures chains[c][k] != chains[i][j]
    {
      assert chains[c][k] in Members(chains[c]);
    }
  }

  // ---------------------------------------------------------------- one component

  /** The search for one component: its vertices and those of the hardware that are left, the two graphs between them,
  and the times at which the attempts began and ended. */
  datatype Search = Search(component: seq<nat>, working: seq<nat>, qc: Csr<int>, aw: Csr<int>, from: nat, end: nat)

  /** What the components are placed with. */
  datatype Setting = Setting(qAdj: map<Key, int>, adj: map<Key, int>, all: set<nat>, tries: nat, heuristic: Heuristic, late: nat -> bool)

  ghost function BestTime(search: Search, x: Setting): nat
    requires GivesPlacements(x.heuristic) && search.from <= search.end
  {
    Narrowest(Widths(x.heuristic, search.qc, search.aw), search.from, search.end).1
  }

  ghost function BestWidth(search: Search, x: Setting): nat
    requires GivesPlacements(x.heuristic) && search.from <= search.end
  {
    Narrowest(Widths(x.heuristic, search.qc, search.aw), search.from, search.end).0
  }

  /** The search was for this component, on the vertices that the chains so far leave. */
  ghost predicate Searched(search: Search, x: Setting, component: seq<nat>, before: seq<seq<nat>>, from: nat)
    requires GivesPlacements(x.heuristic)
  {
    && search.component == component && search.from == from
    && IsAscending(search.working) && Members(search.working) == x.all - InChains(before)
    && Induces(search.qc, x.qAdj, component) && Induces(search.aw, x.adj, search.working)
    && Tried(x.heuristic, search.qc, search.aw, x.tries, x.late, from, search.end)
  }

  /** Every vertex of the component has appended the hardware vertices of its row in the best attempt. */
  ghost predicate RowsAppended(search: Search, x: Setting, before: seq<seq<nat>>, after: seq<seq<nat>>)
    requires GivesPlacements(x.heuristic) && search.from <= search.end
  {
    var attempt := x.heuristic(search.qc, search.aw, BestTime(search, x));
    attempt.result.Some? &&
    var (best, order) := attempt.result.value;
    && WellFormed(best, order, |search.component|, |search.working|)
    && |after| == |before| && (forall i | 0 <= i < |search.component| :: search.component[i] < |before|)
    && (forall j | 0 <= j < |order| ::
          after[search.component[order[j]]] == before[search.component[order[j]]] + Mapped(search.working, Positions(best[j], |search.working|)))
    && (forall v | 0 <= v < |before| && v !in search.component :: after[v] == before[v])
  }

  lemma RowsFromChains(search: Search, x: Setting, width: nat, bags: seq<seq<nat>>, chains: seq<seq<nat>>, before: seq<seq<nat>>, after: seq<seq<nat>>)
    requires GivesPlacements(x.heuristic) && search.from <= search.end && width <= 1
    requires search.qc.numRows == |search.component| && search.aw.numRows == |search.working|
    requires Kept(x.heuristic, search.qc, search.aw, search.from, search.end, width, bags, chains)
    requires |chains| == |search.component| && PlacesInside(chains, |search.working|)
    requires ChainsAppended(search.component, search.working, chains, before, after, |search.component|)
    ensures RowsAppended(search, x, before, after)
  {
    NarrowestIsMinimum(Widths(x.heuristic, search.qc, search.aw), search.from, search.end);
    var (best, order) := x.heuristic(search.qc, search.aw, BestTime(search, x)).result.value;
    assert search.component[..|search.component|] == search.component;
    forall j | 0 <= j < |order|
      ensures after[search.component[order[j]]] == before[search.component[order[j]]] + Mapped(search.working, Positions(best[j], |search.working|))
    {
      assert chains[order[j]] == Positions(best[j], |search.working|);
    }
  }

  /** One pass of the loop: the outcome for one component. */
  method EmbedComponent(component: seq<nat>, qAdj: map<Key, int>, adj: map<Key, int>, tries: nat, heuristic: Heuristic, late: nat -> bool, from: nat,
                        embeddings0: seq<seq<nat>>, workingSet0: set<nat>, ghost x: Setting)
    returns (ok: bool, embeddings: seq<seq<nat>>, workingSet: set<nat>, interrupted: bool, tick: nat, ghost search: Search)
    requires x == Setting(qAdj, adj, x.all, tries, heuristic, late) && GivesPlacements(heuristic)
    requires Placed(embeddings0, workingSet0, x.all) && 0 < |component| <= |workingSet0|
    requires Distinct(component) && forall v | v in component :: v < |embeddings0|
    ensures Searched(search, x, component, embeddings0, from) && search.end == tick
    ensures interrupted == InterruptedAt(heuristic, search.qc, search.aw, from, tick)
    ensures ok <==> BestWidth(search, x) <= 1
    ensures if ok then Placed(embeddings, workingSet, x.all) && RowsAppended(search, x, embeddings0, embeddings) else embeddings == []
  {
    var working := Ascending(workingSet0);
    var qc := InducedGraph(qAdj, component);
    var aw := InducedGraph(adj, working);
    var width, bags, chains;
    width, bags, chains, interrupted, tick := TryComponent(qc, aw, tries, heuristic, late, from);
    search := Search(component, working, qc, aw, from, tick);
    if width > 1 {
      return false, [], workingSet0, interrupted, tick, search;
    }
    ok := true;
    embeddings, workingSet := PlaceComponent(component, working, bags, chains, embeddings0, workingSet0, x.all);
    RowsFromChains(search, x, width, bags, chains, embeddings0, embeddings);
  }

  // ---------------------------------------------------------------- all components

  /** The successful searches so far; the chains were `states[k]` before search number k. */
  datatype Run = Run(searches: seq<Search>, states: seq<seq<seq<nat>>>)

  /** The time after the first `k` searches. */
  ghost function TimeAfter(run: Run, k: nat): nat
    requires k <= |run.searches|
  {
    if k == 0 then 0 else run.searches[k - 1].end
  }

  /** The loop goes on after `k` components. */
  ghost predicate LoopGoesOn(run: Run, x: Setting, components: seq<seq<nat>>, k: nat)
    requires k <= |run.searches|
  {
    && k < |components| && !x.late(TimeAfter(run, k))
    && (k > 0 ==> !InterruptedAt(x.heuristic, run.searches[k - 1].qc, run.searches[k - 1].aw, run.searches[k - 1].from, run.searches[k - 1].end))
  }

  /** The search placed the component, and turned the chains `before` into `after`. */
  ghost predicate Places(search: Search, x: Setting, component: seq<nat>, before: seq<seq<nat>>, after: seq<seq<nat>>, from: nat)
    requires GivesPlacements(x.heuristic)
  {
    && |component| <= |x.all - InChains(before)|
    && Searched(search, x, component, before, from) && BestWidth(search, x) <= 1
    && RowsAppended(search, x, before, after)
  }

  /** Search number `k` was made for component number `k` and placed it. */
  ghost predicate PlacedBy(run: Run, x: Setting, components: seq<seq<nat>>, k: nat)
    requires GivesPlacements(x.heuristic) && k < |run.searches| && |run.states| == |run.searches| + 1
  {
    && LoopGoesOn(run, x, components, k)
    && Places(run.searches[k], x, components[k], run.states[k], run.states[k + 1], TimeAfter(run, k) + 1)
  }

  ghost predicate IsRun(run: Run, x: Setting, components: seq<seq<nat>>, rows: nat)
    requires GivesPlacements(x.heuristic)
  {
    && |run.states| == |run.searches| + 1 && |run.searches| <= |components|
    && run.states[0] == seq(rows, _ => [])
    && forall k | 0 <= k < |run.searches| :: PlacedBy(run, x, components, k)
  }

  /** The component after the last placed one does not fit, or no attempt at it has width 1. */
  ghost predicate Fails(run: Run, x: Setting, components: seq<seq<nat>>)
    requires GivesPlacements(x.heuristic) && |run.states| == |run.searches| + 1 && |run.searches| < |components|
  {
    var k := |run.searches|;
    || |components[k]| > |x.all - InChains(run.states[k])|
    || exists search: Search :: Searched(search, x, components[k], run.states[k], TimeAfter(run, k) + 1) && BestWidth(search, x) > 1
  }

  /** The result: nothing after a failure, otherwise the chains at the end unless the check rejects them. */
  ghost predicate IsResultOf(run: Run, x: Setting, components: seq<seq<nat>>, rows: nat, accepts: seq<seq<nat>> -> bool, result: seq<seq<nat>>)
    requires GivesPlacements(x.heuristic)
  {
    && IsRun(run, x, components, rows)
    && var last := run.states[|run.searches|];
       if LoopGoesOn(run, x, components, |run.searches|) then Fails(run, x, components) && result == []
       else result == if accepts(last) then last else []
  }

  lemma SameBefore(run: Run, x: Setting, components: seq<seq<nat>>, search: Search, after: seq<seq<nat>>, k: nat)
    requires k <= |run.searches|
    ensures var more := Run(run.searches + [search], run.states + [after]);
            TimeAfter(more, k) == TimeAfter(run, k) && (LoopGoesOn(more, x, components, k) <==> LoopGoesOn(run, x, components, k))
  {
    assert k > 0 ==> (run.searches + [search])[k - 1] == run.searches[k - 1];
  }

  /** One more component placed. */
  lemma RunGrows(run: Run, x: Setting, components: seq<seq<nat>>, rows: nat, search: Search, after: seq<seq<nat>>, more: Run)
    requires GivesPlacements(x.heuristic) && IsRun(run, x, components, rows) && LoopGoesOn(run, x, components, |run.searches|)
    requires more == Run(run.searches + [search], run.states + [after])
    requires var k := |run.searches|; Places(search, x, components[k], run.states[k], after, TimeAfter(run, k) + 1)
    ensures IsRun(more, x, components, rows)
  {
    forall k | 0 <= k < |more.searches|
      ensures PlacedBy(more, x, components, k)
    {
      SameBefore(run, x, components, search, after, k);
      assert k < |run.searches| ==> PlacedBy(run, x, components, k);
      assert more.states[k] == run.states[k];
    }
  }

  /** The loop has placed the first components and stands before the next. */
  ghost predicate Looping(run: Run, x: Setting, components: seq<seq<nat>>, rows: nat, embeddings: seq<seq<nat>>, workingSet: set<nat>,
                          index: nat, interrupted: bool, tick: nat)
    requires GivesPlacements(x.heuristic)
  {
    && IsRun(run, x, components, rows) && index == |run.searches| && embeddings == run.states[index] && |embeddings| == rows
    && Placed(embeddings, workingSet, x.all) && tick == TimeAfter(run, index)
    && interrupted == (index > 0 && var last := run.searches[index - 1]; InterruptedAt(x.heuristic, last.qc, last.aw, last.from, last.end))
  }

  ghost predicate Failed(run: Run, x: Setting, components: seq<seq<nat>>, rows: nat)
    requires GivesPlacements(x.heuristic)
  {
    IsRun(run, x, components, rows) && LoopGoesOn(run, x, components, |run.searches|) && Fails(run, x, components)
  }

  /** Lists of problem vertices without repetition. */
  ghost predicate Inside(components: seq<seq<nat>>, rows: nat) {
    forall c | 0 <= c < |components| :: components[c] != [] && Distinct(components[c]) && forall v | v in components[c] :: v < rows
  }

  method EmbedNext(components: seq<seq<nat>>, qAdj: map<Key, int>, adj: map<Key, int>, tries: nat, heuristic: Heuristic, late: nat -> bool,
                   index: nat, tick0: nat, ghost interrupted0: bool, embeddings0: seq<seq<nat>>, workingSet0: set<nat>,
                   ghost x: Setting, ghost run0: Run, ghost rows: nat)
    returns (success: bool, embeddings: seq<seq<nat>>, workingSet: set<nat>, interrupted: bool, tick: nat, ghost run: Run)
    requires x == Setting(qAdj, adj, x.all, tries, heuristic, late) && GivesPlacements(heuristic) && Inside(components, rows)
    requires Looping(run0, x, components, rows, embeddings0, workingSet0, index, interrupted0, tick0)
    requires index < |components| && !interrupted0 && !late(tick0) && |components[index]| <= |workingSet0|
    ensures success ==> Looping(run, x, components, rows, embeddings, workingSet, index + 1, interrupted, tick)
    ensures !success ==> embeddings == [] && Failed(run, x, components, rows)
  {
    ghost var search;
    success, embeddings, workingSet, interrupted, tick, search :=
      EmbedComponent(components[index], qAdj, adj, tries, heuristic, late, tick0 + 1, embeddings0, workingSet0, x);
    run := run0;
    if success {
      run := Run(run0.searches + [search], run0.states + [embeddings]);
      AfterSearch(run0, x, components, rows, embeddings0, workingSet0, index, interrupted0, tick0, search, embeddings, workingSet, run);
    } else {
      AfterFailure(run0, x, components, rows, embeddings0, workingSet0, index, interrupted0, tick0, search);
    }
  }

  lemma AfterSearch(run: Run, x: Setting, components: seq<seq<nat>>, rows: nat, embeddings: seq<seq<nat>>, workingSet: set<nat>,
                    index: nat, interrupted: bool, tick: nat, search: Search, after: seq<seq<nat>>, left: set<nat>, more: Run)
    requires GivesPlacements(x.heuristic) && Looping(run, x, components, rows, embeddings, workingSet, index, interrupted, tick)
    requires index < |components| && !interrupted && !x.late(tick) && |components[index]| <= |workingSet|
    requires Searched(search, x, components[index], embeddings, tick + 1) && BestWidth(search, x) <= 1
    requires RowsAppended(search, x, embeddings, after) && Placed(after, left, x.all)
    requires more == Run(run.searches + [search], run.states + [after])
    ensures Looping(more, x, components, rows, after, left, index + 1,
                    InterruptedAt(x.heuristic, search.qc, search.aw, search.from, search.end), search.end)
  {
    RunGrows(run, x, components, rows, search, after, more);
  }

  lemma AfterFailure(run: Run, x: Setting, components: seq<seq<nat>>, rows: nat, embeddings: seq<seq<nat>>, workingSet: set<nat>,
                     index: nat, interrupted: bool, tick: nat, search: Search)
    requires GivesPlacements(x.heuristic) && Looping(run, x, components, rows, embeddings, workingSet, index, interrupted, tick)
    requires index < |components| && !interrupted && !x.late(tick)
    requires Searched(search, x, components[index], embeddings, tick + 1) && BestWidth(search, x) > 1
    ensures Failed(run, x, components, rows)
  {
  }

  // ---------------------------------------------------------------- the whole search

  /** What the caller gets: chains without repetition that share no vertex and use only vertices of the hardware graph. */
  ghost predicate DisjointChains(embeddings: seq<seq<nat>>, a: Csr<int>)
    requires a.Valid()
  {
    && Separate(embeddings)
    && (forall v | 0 <= v < |embeddings| :: Distinct(embeddings[v]))
    && (forall v, q: nat | 0 <= v < |embeddings| && q in embeddings[v] :: Occurs(a, q))
  }

  /** The vertex has a stored entry in its row or column. */
  ghost predicate Occurs(a: Csr<int>, q: nat)
    requires a.Valid()
  {
    exists w: nat :: Stored(a, q, w) || Stored(a, w, q)
  }

  ghost predicate IsAdjacency(adj: map<Key, int>, m: Csr<int>)
    requires m.Valid()
  {
    forall i: nat, j: nat :: (i, j) in adj <==> Stored(m, i, j) || Stored(m, j, i)
  }

  lemma PlacedIsDisjoint(embeddings: seq<seq<nat>>, working: set<nat>, all: set<nat>, adj: map<Key, int>, a: Csr<int>)
    requires Placed(embeddings, working, all) && a.Valid() && IsAdjacency(adj, a)
    requires forall v: nat :: v in all <==> exists w: nat :: (v, w) in adj
    ensures DisjointChains(embeddings, a)
  {
    forall v, q: nat | 0 <= v < |embeddings| && q in embeddings[v]
      ensures Occurs(a, q)
    {
      assert q in InChains(embeddings);
      var w: nat :| (q, w) in adj;
    }
  }

  /** The adjacency of both matrices, the vertices of the hardware graph, and the components of the problem. */
  datatype Trace = Trace(x: Setting, graph: Csr<int>, found: seq<seq<nat>>, run: Run)

  ghost predicate IsTrace(trace: Trace, q: Csr<int>, a: Csr<int>, tries: nat, heuristic: Heuristic, late: nat -> bool)
    requires q.Valid() && a.Valid()
  {
    var x := trace.x;
    && x.tries == tries && x.heuristic == heuristic && x.late == late
    && IsAdjacency(x.qAdj, q) && IsAdjacency(x.adj, a) && (forall v: nat :: v in x.all <==> exists w: nat :: (v, w) in x.adj)
    && trace.graph.Valid() && trace.graph.View() == x.qAdj && trace.graph.numRows == q.numRows
    && forall key | key in x.qAdj :: x.qAdj[key] == 1
  }

  /** `sort` orders the components by size; `verify` is the final check. Every run, whatever the heuristic, the clock and the
  interruptions do, gives disjoint chains. */
  method FindEmbedding(q: Csr<int>, a: Csr<int>, tries: nat, verbose: nat, heuristic: Heuristic, late: nat -> bool,
                       sort: seq<seq<nat>> -> seq<seq<nat>>, verify: seq<seq<nat>> -> bool)
    returns (r: Result<seq<seq<nat>>>, ghost trace: Trace)
    requires q.Valid() && a.Valid() && GivesPlacements(heuristic) && forall s :: multiset(sort(s)) == multiset(s)
    ensures r.Failure? <==> q.numRows != q.numCols || a.numRows != a.numCols
    ensures r.Success? ==> IsTrace(trace, q, a, tries, heuristic, late)
    ensures r.Success? && trace.x.adj == map[] ==> r.value == []
    ensures r.Success? && trace.x.adj != map[] ==>
              ComponentsOf(trace.graph, trace.found) &&
              IsResultOf(trace.run, trace.x, sort(trace.found), q.numRows, e => verbose == 0 || verify(e), r.value)
    ensures r.Success? ==> DisjointChains(r.value, a)
  {
    trace := Trace(Setting(map[], map[], {}, tries, heuristic, late), q, [], Run([], []));
    if q.numRows != q.numCols {
      return Failure("Q must be square matrix"), trace;
    }
    if a.numRows != a.numCols {
      return Failure("A must be square matrix"), trace;
    }
    var qAdj, qVertices := SymmetricAdjacency(q);
    KeysInside(q, qAdj);
    var graph :- assert FromMap(q.numRows, q.numRows, qAdj);
    AdjacencyUndirected(graph, qAdj);
    var adj, workingSet := SymmetricAdjacency(a);
    ghost var x := Setting(qAdj, adj, workingSet, tries, heuristic, late);
    trace := trace.(x := x, graph := graph);
    if adj == map[] {
      return Success([]), trace;
    }
    var found := ConnectedComponents(graph);
    var components := sort(found);
    SortedInside(graph, found, components);
    var embeddings;
    ghost var run;
    embeddings, run := EmbedAll(q.numRows, components, qAdj, adj, workingSet, tries, heuristic, late, x, e => verbose == 0 || verify(e));
    trace := trace.(found := found, run := run);
    r := Success(embeddings);
    ghost var working: set<nat> :| Placed(embeddings, working, x.all);
    PlacedIsDisjoint(embeddings, working, x.all, adj, a);
  }

  method EmbedAll(rows: nat, components: seq<seq<nat>>, qAdj: map<Key, int>, adj: map<Key, int>, all: set<nat>, tries: nat,
                  heuristic: Heuristic, late: nat -> bool, ghost x: Setting, accepts: seq<seq<nat>> -> bool)
    returns (embeddings: seq<seq<nat>>, ghost run: Run)
    requires x == Setting(qAdj, adj, all, tries, heuristic, late) && GivesPlacements(heuristic) && Inside(components, rows)
    ensures IsResultOf(run, x, components, rows, accepts, embeddings)
    ensures exists working: set<nat> :: Placed(embeddings, working, all)
  {
    var workingSet := all;
    embeddings := seq(rows, _ => []);
    run := Run([], [embeddings]);
    NothingPlaced(embeddings, all);
    var success, interrupted, tick, index := true, false, 0, 0;
    while success && !interrupted && index < |components| && !late(tick)
      invariant index <= |components|
      invariant if success then Looping(run, x, components, rows, embeddings, workingSet, index, interrupted, tick)
                else embeddings == [] && Failed(run, x, components, rows)
      decreases |components| - index
    {
      if |components[index]| > |workingSet| {
        NothingPlaced([], all);
        return [], run;
      }
      success, embeddings, workingSet, interrupted, tick, run :=
        EmbedNext(components, qAdj, adj, tries, heuristic, late, index, tick, interrupted, embeddings, workingSet, x, run, rows);
      index := index + 1;
    }
    NothingPlaced([], all);
    if !accepts(embeddings) {
      embeddings := [];
    }
  }

  lemma NothingPlaced(embeddings: seq<seq<nat>>, all: set<nat>)
    requires forall v | 0 <= v < |embeddings| :: embeddings[v] == []
    ensures Placed(embeddings, all, all)
  {
    assert InChains(embeddings) == {};
  }

  lemma KeysInside(m: Csr<int>, adj: map<Key, int>)
    requires m.Valid() && m.numRows == m.numCols && IsAdjacency(adj, m)
    ensures forall key | key in adj :: key.0 < m.numRows && key.1 < m.numRows
  {
    forall key | key in adj
      ensures key.0 < m.numRows && key.1 < m.numRows
    {
      var i, j := key.0, key.1;
      if Stored(m, i, j) {
        var k := m.IndexOf((i, j));
      } else {
        var k := m.IndexOf((j, i));
      }
    }
  }

  lemma SortedInside(g: Csr<int>, found: seq<seq<nat>>, components: seq<seq<nat>>)
    requires g.Valid() && ComponentsOf(g, found) && multiset(components) == multiset(found)
    ensures Inside(components, g.numRows)
  {
    forall c | 0 <= c < |components|
      ensures components[c] != [] && Distinct(components[c]) && forall v | v in components[c] :: v < g.numRows
    {
      assert components[c] in multiset(components);
      var d :| 0 <= d < |found| && found[d] == components[c];
    }
  }

  // ---------------------------------------------------------------- what the chains at the end are

  ghost predicate Apart(components: seq<seq<nat>>) {
    forall c, d, v: nat | 0 <= c < |components| && 0 <= d < |components| && v in components[c] && v in components[d] :: c == d
  }

  lemma CountedTwice(s: seq<seq<nat>>, c: nat, d: nat)
    requires c < d < |s| && s[c] == s[d]
    ensures multiset(s)[s[c]] >= 2
  {
    assert s == s[..d] + [s[d]] + s[d + 1..];
    assert s[c] in s[..d];
  }

  lemma {:induction false} CountedOnce(s: seq<seq<nat>>, x: seq<nat>)
    requires Distinct(s)
    ensures multiset(s)[x] <= 1
  {
    if s != [] {
      var l := |s| - 1;
      assert s == s[..l] + [s[l]];
      CountedOnce(s[..l], x);
      assert s[l] == x ==> x !in s[..l];
    }
  }

  /** Sorting does not bring two components with a common vertex about. */
  lemma SortedApart(g: Csr<int>, found: seq<seq<nat>>, components: seq<seq<nat>>)
    requires g.Valid() && ComponentsOf(g, found) && multiset(components) == multiset(found)
    ensures Apart(components)
  {
    forall c, d | 0 <= c < d < |found|
      ensures found[c] != found[d]
    {
      assert found[c][0] in Members(found[c]);
    }
    forall c, d, v: nat | 0 <= c < |components| && 0 <= d < |components| && v in components[c] && v in components[d]
      ensures c == d
    {
      SameComponent(found, components, c, d, v);
      if c < d {
        CountedTwice(components, c, d);
        CountedOnce(found, components[c]);
      } else if d < c {
        CountedTwice(components, d, c);
        CountedOnce(found, components[d]);
      }
    }
  }

  lemma SameComponent(found: seq<seq<nat>>, components: seq<seq<nat>>, c: nat, d: nat, v: nat)
    requires Separate(found) && multiset(components) == multiset(found) && c < |components| && d < |components|
    requires v in components[c] && v in components[d]
    ensures components[c] == components[d]
  {
    assert components[c] in multiset(components) && components[d] in multiset(components);
    var e :| 0 <= e < |found| && found[e] == components[c];
    var f :| 0 <= f < |found| && found[f] == components[d];
    assert v in Members(found[e]) && v in Members(found[f]);
  }

  /** Searches for other components leave a vertex alone. */
  lemma {:induction false} Untouched(run: Run, x: Setting, components: seq<seq<nat>>, rows: nat, k: nat, l: nat, v: nat)
    requires GivesPlacements(x.heuristic) && IsRun(run, x, components, rows) && k <= l < |run.states|
    requires forall c | k <= c < l :: v !in components[c]
    ensures |run.states[k]| == |run.states[l]| && (v < |run.states[l]| ==> run.states[l][v] == run.states[k][v])
    decreases l
  {
    if k < l {
      Untouched(run, x, components, rows, k, l - 1, v);
      assert PlacedBy(run, x, components, l - 1);
    }
  }

  ghost function Rows(search: Search, x: Setting): (r: (seq<seq<bool>>, seq<nat>))
    requires GivesPlacements(x.heuristic) && search.from <= search.end
  {
    var attempt := x.heuristic(search.qc, search.aw, BestTime(search, x));
    if attempt.result.Some? then attempt.result.value else ([], [])
  }

  lemma FinalChain(run: Run, x: Setting, components: seq<seq<nat>>, rows: nat, k: nat, v: nat)
    requires GivesPlacements(x.heuristic) && IsRun(run, x, components, rows) && Apart(components)
    requires k < |run.searches| && v in components[k] && v < rows
    ensures |run.states[k]| == |run.states[k + 1]| == |run.states[|run.searches|]| == rows
    ensures run.states[k][v] == [] && run.states[|run.searches|][v] == run.states[k + 1][v]
  {
    Untouched(run, x, components, rows, 0, k, v);
    assert PlacedBy(run, x, components, k);
    Untouched(run, x, components, rows, k + 1, |run.searches|, v);
  }

  lemma RowPlaced(search: Search, x: Setting, before: seq<seq<nat>>, after: seq<seq<nat>>, j: nat)
    requires GivesPlacements(x.heuristic) && search.from <= search.end && RowsAppended(search, x, before, after)
    requires j < |Rows(search, x).1|
    ensures |Rows(search, x).0| == |Rows(search, x).1| == |search.component| && Rows(search, x).1[j] < |search.component|
    ensures |Rows(search, x).0[j]| == |search.working| && search.component[Rows(search, x).1[j]] < |before| == |after|
    ensures var v := search.component[Rows(search, x).1[j]];
            before[v] == [] ==> after[v] == Mapped(search.working, Positions(Rows(search, x).0[j], |search.working|))
  {
  }

  /** At the end every vertex of a placed component has exactly the hardware vertices of its row in the best attempt. */
  lemma ChainsAreRows(run: Run, x: Setting, components: seq<seq<nat>>, rows: nat, k: nat, j: nat)
    requires GivesPlacements(x.heuristic) && IsRun(run, x, components, rows) && Apart(components) && Inside(components, rows)
    requires k < |run.searches| && run.searches[k].from <= run.searches[k].end && j < |Rows(run.searches[k], x).1|
    ensures IsRow(run.searches[k], x, j, run.states[|run.searches|])
  {
    assert PlacedBy(run, x, components, k);
    RowPlaced(run.searches[k], x, run.states[k], run.states[k + 1], j);
    var v := components[k][Rows(run.searches[k], x).1[j]];
    assert v in components[k];
    FinalChain(run, x, components, rows, k, v);
  }

  /** The chain of the vertex that row `j` belongs to has the hardware vertices of the row. */
  ghost predicate IsRow(search: Search, x: Setting, j: nat, chains: seq<seq<nat>>)
    requires GivesPlacements(x.heuristic) && search.from <= search.end
  {
    var (best, order) := Rows(search, x);
    && j < |best| == |order| && |best[j]| == |search.working| && order[j] < |search.component| && search.component[order[j]] < |chains|
    && chains[search.component[order[j]]] == Mapped(search.working, Positions(best[j], |search.working|))
  }

  /** The best attempt gives neighbours of the component neighbouring vertices of the hardware. */
  ghost predicate Couples(search: Search, x: Setting)
    requires GivesPlacements(x.heuristic) && search.from <= search.end && search.qc.Valid() && search.aw.Valid()
  {
    var (best, order) := Rows(search, x);
    forall a, b | 0 <= a < |order| == |best| && 0 <= b < |order| && (order[a], order[b]) in search.qc.View() ::
      RowsMeet(best[a], best[b], search.aw)
  }

  ghost predicate RowsMeet(a: seq<bool>, b: seq<bool>, aw: Csr<int>)
    requires aw.Valid()
  {
    exists p: nat, s: nat :: p < |a| && s < |b| && a[p] && b[s] && (p, s) in aw.View()
  }

  /** Some vertex of one chain is adjacent to some vertex of the other. */
  ghost predicate ChainsMeet(a: seq<nat>, b: seq<nat>, adj: map<Key, int>) {
    exists p: nat, s: nat :: p in a && s in b && (p, s) in adj
  }

  lemma MappedHas(working: seq<nat>, row: seq<bool>, p: nat)
    requires p < |row| == |working| && row[p]
    ensures working[p] in Mapped(working, Positions(row, |working|))
  {
    PositionsHold(row, |working|);
    var k :| 0 <= k < |Positions(row, |working|)| && Positions(row, |working|)[k] == p;
    assert Mapped(working, Positions(row, |working|))[k] == working[p];
  }

  lemma MeetingMapped(a: seq<bool>, b: seq<bool>, working: seq<nat>, aw: Csr<int>, adj: map<Key, int>)
    requires |a| == |b| == |working| && Induces(aw, adj, working) && RowsMeet(a, b, aw)
    ensures ChainsMeet(Mapped(working, Positions(a, |working|)), Mapped(working, Positions(b, |working|)), adj)
  {
    var p: nat, s: nat :| p < |a| && s < |b| && a[p] && b[s] && (p, s) in aw.View();
    MappedHas(working, a, p);
    MappedHas(working, b, s);
  }

  /** So if the best attempt at a component couples all neighbours, the chains at the end do: no vertex has another's chain. */
  lemma NeighboursCoupled(run: Run, x: Setting, components: seq<seq<nat>>, rows: nat, k: nat, i: nat, j: nat)
    requires GivesPlacements(x.heuristic) && IsRun(run, x, components, rows) && Apart(components) && Inside(components, rows)
    requires k < |run.searches| && PlacedBy(run, x, components, k) && Couples(run.searches[k], x)
    requires i < |components[k]| && j < |components[k]| && (components[k][i], components[k][j]) in x.qAdj
    requires |run.states[|run.searches|]| == rows && components[k][i] < rows && components[k][j] < rows
    ensures var last := run.states[|run.searches|]; ChainsMeet(last[components[k][i]], last[components[k][j]], x.adj)
  {
    var search := run.searches[k];
    var (best, order) := Rows(search, x);
    OrderCovers(order, |components[k]|, i);
    OrderCovers(order, |components[k]|, j);
    var a :| 0 <= a < |order| && order[a] == i;
    var b :| 0 <= b < |order| && order[b] == j;
    ChainsAreRows(run, x, components, rows, k, a);
    ChainsAreRows(run, x, components, rows, k, b);
    MeetingMapped(best[a], best[b], search.working, search.aw, x.adj);
  }

  // ---------------------------------------------------------------- the edges of the problem

  lemma NeighbourInComponent(trace: Trace, q: Csr<int>, a: Csr<int>, components: seq<seq<nat>>, k: nat, u: nat, v: nat)
    requires q.Valid() && a.Valid() && IsTrace(trace, q, a, trace.x.tries, trace.x.heuristic, trace.x.late)
    requires ComponentsOf(trace.graph, trace.found) && multiset(components) == multiset(trace.found)
    requires k < |components| && u in components[k] && (u, v) in trace.x.qAdj
    ensures v in components[k]
  {
    assert components[k] in multiset(components);
    var c :| 0 <= c < |trace.found| && trace.found[c] == components[k];
    assert IsArc(trace.graph, u, v);
    var n := trace.graph.IndexOf((u, v));
    assert trace.graph.InRow(u, n);
    ReachesStep(trace.graph, components[k][0], u, n);
  }

  /** Every stored entry of the problem between vertices of placed components has a coupler between the chains, if the best
  attempts couple neighbours. */
  lemma EdgesCoupled(trace: Trace, q: Csr<int>, a: Csr<int>, components: seq<seq<nat>>, k: nat, u: nat, v: nat)
    requires q.Valid() && a.Valid() && IsTrace(trace, q, a, trace.x.tries, trace.x.heuristic, trace.x.late) && GivesPlacements(trace.x.heuristic)
    requires ComponentsOf(trace.graph, trace.found) && multiset(components) == multiset(trace.found)
    requires IsRun(trace.run, trace.x, components, q.numRows) && k < |trace.run.searches|
    requires PlacedBy(trace.run, trace.x, components, k) && Couples(trace.run.searches[k], trace.x)
    requires u in components[k] && Stored(q, u, v)
    ensures var last := trace.run.states[|trace.run.searches|]; u < |last| && v < |last| && HaveCoupler(last[u], last[v], a)
  {
    NeighbourInComponent(trace, q, a, components, k, u, v);
    SortedApart(trace.graph, trace.found, components);
    SortedInside(trace.graph, trace.found, components);
    MemberCoupled(trace.run, trace.x, components, q.numRows, k, u, v);
  }

  ghost predicate HaveCoupler(c: seq<nat>, d: seq<nat>, a: Csr<int>)
    requires a.Valid()
  {
    exists p: nat, s: nat :: p in c && s in d && (Stored(a, p, s) || Stored(a, s, p))
  }

  lemma MemberCoupled(run: Run, x: Setting, components: seq<seq<nat>>, rows: nat, k: nat, u: nat, v: nat)
    requires GivesPlacements(x.heuristic) && IsRun(run, x, components, rows) && Apart(components) && Inside(components, rows)
    requires k < |run.searches| && PlacedBy(run, x, components, k) && Couples(run.searches[k], x)
    requires u in components[k] && v in components[k] && (u, v) in x.qAdj
    ensures var last := run.states[|run.searches|]; u < |last| && v < |last| && ChainsMeet(last[u], last[v], x.adj)
  {
    FinalChain(run, x, components, rows, k, u);
    var i :| 0 <= i < |components[k]| && components[k][i] == u;
    var j :| 0 <= j < |components[k]| && components[k][j] == v;
    NeighboursCoupled(run, x, components, rows, k, i, j);
  }
}
