/** Method 1 ("optimized"): components reached from the source are fixed, then components all of whose successors
are decided, until none is left. */
module FixOptimized {
  import opened CompressedMatrices
  import opened Graphs
  import opened Queues
  import opened ImplicationNetwork
  import opened SymmetricResiduals
  import opened Components
  import opened OptimizedTheory

  // ---------------------------------------------------------------- breadth-first search on the condensation

  ghost function Touched(visited: seq<int>): (s: set<nat>)
    ensures forall v: nat :: v in s <==> v < |visited| && visited[v] != 0
  {
    set v: nat | v in UpTo(|visited|) && visited[v] != 0
  }

  ghost predicate PathState(g: Csr<int>, src: nat, visited: seq<int>, q: seq<nat>, todo: set<nat>) {
    && g.Valid() && g.numRows == g.numCols == |visited| && src < |visited|
    && (forall v: nat | v < |visited| :: visited[v] == if v == src then 1 else if v in Touched(visited) then 2 else 0)
    && (forall v | v in todo :: v < |visited|)
    && (forall v: nat | v < |visited| && visited[v] == 0 :: v in todo)
    && Distinct(q)
    && (forall v: nat :: v in q <==> v in todo && visited[v] != 0)
  }

  method ShortestPath(src: nat, g: Csr<int>) returns (visited: seq<int>)
    requires g.Valid() && g.numRows == g.numCols && src < g.numRows
    ensures |visited| == g.numRows
    ensures forall v: nat | v < |visited| :: visited[v] == if v == src then 1 else if Reaches(g, src, v) then 2 else 0
  {
    var q: seq<nat> := [src];
    visited := seq(g.numRows, _ => 0);
    visited := visited[src := 1];
    ghost var todo := UpTo(g.numRows);
    while q != []
      invariant PathState(g, src, visited, q, todo)
      invariant Explored(g, Touched(visited), todo, src)
      decreases todo
    {
      var curr := q[0];
      assert curr in q;
      PopFront(q);
      q := q[1..];
      todo := todo - {curr};
      visited, q := TouchSuccessors(g, src, curr, visited, q, todo);
    }
    ExploredAll(g, Touched(visited), todo, src);
  }

  method TouchSuccessors(g: Csr<int>, ghost src: nat, curr: nat, visited0: seq<int>, q0: seq<nat>, ghost todo: set<nat>)
    returns (visited: seq<int>, q: seq<nat>)
    requires PathState(g, src, visited0, q0, todo) && curr < g.numRows && visited0[curr] != 0 && curr !in todo
    requires Explored(g, Touched(visited0), todo + {curr}, src)
    ensures PathState(g, src, visited, q, todo) && Explored(g, Touched(visited), todo, src)
  {
    visited, q := visited0, q0;
    var start, end := g.rowOffsets[curr], g.rowOffsets[curr + 1];
    for j := start to end
      invariant PathState(g, src, visited, q, todo) && visited[curr] != 0
      invariant Explored(g, Touched(visited), todo + {curr}, src)
      invariant forall k | start <= k < j && g.values[k] != 0 :: visited[g.colIndices[k]] != 0
      invariant end <= |g.values|
    {
      var c := g.colIndices[j];
      assert g.InRow(curr, j);
      if g.values[j] != 0 && visited[c] == 0 {
        TouchKeeps(g, src, curr, j, visited, q, todo);
        visited := visited[c := 2];
        q := q + [c];
      }
    }
  }

  /** Touching and enqueueing one more successor. */
  lemma TouchKeeps(g: Csr<int>, src: nat, curr: nat, j: nat, visited: seq<int>, q: seq<nat>, todo: set<nat>)
    requires PathState(g, src, visited, q, todo) && Explored(g, Touched(visited), todo + {curr}, src)
    requires g.InRow(curr, j) && j < |g.values| && g.values[j] != 0 && visited[curr] != 0 && visited[g.colIndices[j]] == 0
    ensures var (c, after) := (g.colIndices[j], visited[g.colIndices[j] := 2]);
            PathState(g, src, after, q + [c], todo) && Explored(g, Touched(after), todo + {curr}, src)
  {
    ReachesStep(g, src, curr, j);
    PushBack(q, g.colIndices[j]);
  }

  // ---------------------------------------------------------------- which components there are

  /** Everything method 1 knows about the component graph. */
  ghost predicate Known(g: Csr<int>, r: Csr<int>, n: nat, component: seq<nat>, num: nat, cg: Csr<int>, s: seq<SC>, classified: seq<int>) {
    && Condensed(g, r, n, component, num, cg)
    && |s| == |classified| == num
    && (forall c: nat | c < num :: ListsComponent(s[c], component, n, c, |component|))
    && (forall c: nat | c < num :: classified[c] == if Co(component, n, c) == c then 0 else 1)
  }

  lemma ClassMeansSelfComplementary(g: Csr<int>, r: Csr<int>, n: nat, component: seq<nat>, num: nat, sc: SC, c: nat)
    requires SymmetricResidual(g, r, n) && ComponentIds(g, component, num) && c < num
    requires ListsComponent(sc, component, n, c, |component|)
    ensures c in component
    ensures (exists v :: v in sc.positive && v in sc.negative) <==> Co(component, n, c) == c
  {
    assert c in component;
    var v: nat :| v < |component| && component[v] == c;
    CoOf(g, r, n, component, num, v);
    var w := if v <= n then v else v - (n + 1);
    if Co(component, n, c) == c {
      assert w in sc.positive && w in sc.negative;
    }
    if u :| u in sc.positive && u in sc.negative {
      CoOf(g, r, n, component, num, u);
    }
  }

  /** Neither self-complementary nor the component of a terminal. */
  ghost predicate Free(component: seq<nat>, n: nat, c: nat)
    requires |component| == 2 * n + 2 && c in component
  {
    Co(component, n, c) != c && c != component[0] && c != component[n + 1]
  }

  method LocateTerminals(classified: seq<int>, s: seq<SC>, n: nat, ghost g: Csr<int>, ghost r: Csr<int>,
                         ghost component: seq<nat>, ghost cg: Csr<int>)
    returns (x0: nat, x0Bar: nat, free: seq<nat>)
    requires Known(g, r, n, component, |s|, cg, s, classified)
    ensures x0 == component[0] && x0Bar == component[n + 1]
    ensures forall c: nat :: c in free <==> c < |s| && Free(component, n, c)
  {
    var num := |s|;
    x0, x0Bar, free := 0, 0, [];
    for i := 0 to |classified|
      invariant component[0] < i ==> x0 == component[0]
      invariant component[n + 1] < i ==> x0Bar == component[n + 1]
      invariant forall c: nat :: c in free <==> c < i && Free(component, n, c)
    {
      FirstVertex(g, r, n, component, num, s[i], i);
      assert i in component;
      if classified[i] == 1 {
        if s[i].original[0] == 0 {
          x0 := i;
        } else if s[i].original[0] == n + 1 {
          x0Bar := i;
        } else {
          free := free + [i];
        }
      }
    }
  }

  lemma FirstVertex(g: Csr<int>, r: Csr<int>, n: nat, component: seq<nat>, num: nat, sc: SC, c: nat)
    requires SymmetricResidual(g, r, n) && ComponentIds(g, component, num) && c < num
    requires ListsComponent(sc, component, n, c, |component|)
    ensures c in component && sc.original != []
    ensures sc.original[0] == 0 <==> c == component[0]
    ensures sc.original[0] == n + 1 <==> c == component[n + 1]
    ensures c == component[0] || c == component[n + 1] ==> Co(component, n, c) != c
  {
    assert c in component;
    var v: nat :| v < |component| && component[v] == c;
    assert v in sc.original && sc.original[0] in sc.original;
    TerminalsAlone(g, r, n, component, num, sc.original[0]);
    CoOf(g, r, n, component, num, 0);
    CoOf(g, r, n, component, num, n + 1);
    TerminalsAlone(g, r, n, component, num, 0);
    assert component[0] == c ==> 0 in sc.original;
    assert component[n + 1] == c ==> n + 1 in sc.original;
  }

  /** `std::map::operator[]` reads a missing key as 0. */
  function PairOf(pairs: map<nat, nat>, c: nat): nat {
    if c in pairs then pairs[c] else 0
  }

  method ComplementPairs(s: seq<SC>, free: seq<nat>, n: nat, ghost g: Csr<int>, ghost r: Csr<int>,
                         ghost component: seq<nat>, ghost cg: Csr<int>, ghost classified: seq<int>)
    returns (pairs: map<nat, nat>)
    requires Known(g, r, n, component, |s|, cg, s, classified)
    requires forall c: nat :: c in free <==> c < |s| && Free(component, n, c)
    ensures forall c | c in free :: c in component && PairOf(pairs, c) == Co(component, n, c)
  {
    var positive, negative := LocateLiterals(s, free, n, component);
    ComplementsPaired(g, r, n, component, |s|);
    pairs := PairUp(positive, negative, n, component, free);
    forall c: nat | c in free
      ensures c in component && PairOf(pairs, c) == Co(component, n, c)
    {
      var v := FreeVariable(g, r, n, component, |s|, c);
      assert Paired(pairs, component, n, free, v);
    }
  }

  /** For every variable the free component of its positive and of its negative literal, or -1. */
  method LocateLiterals(s: seq<SC>, free: seq<nat>, n: nat, ghost component: seq<nat>) returns (positive: seq<int>, negative: seq<int>)
    requires |component| == 2 * n + 2
    requires forall c: nat | c < |s| :: ListsComponent(s[c], component, n, c, |component|)
    requires forall c: nat | c in free :: c < |s|
    ensures |positive| == |negative| == n + 1
    ensures forall v: nat {:trigger positive[v]} | v <= n :: positive[v] == if component[v] in free then component[v] else -1
    ensures forall v: nat {:trigger negative[v]} | v <= n :: negative[v] == if component[v + n + 1] in free then component[v + n + 1] else -1
  {
    positive := seq(n + 1, _ => -1);
    negative := seq(n + 1, _ => -1);
    for i := 0 to |free|
      invariant |positive| == |negative| == n + 1
      invariant forall v: nat {:trigger positive[v]} | v <= n :: positive[v] == if component[v] in free[..i] then component[v] else -1
      invariant forall v: nat {:trigger negative[v]} | v <= n :: negative[v] == if component[v + n + 1] in free[..i] then component[v + n + 1] else -1
    {
      assert free[i] in free && free[..i + 1] == free[..i] + [free[i]];
      positive := MarkAll(positive, s[free[i]].positive, free[i]);
      negative := MarkAll(negative, s[free[i]].negative, free[i]);
    }
    assert free[..|free|] == free;
  }

  /** The positive and the negative literal of variable `v` lie in complementary components. */
  ghost predicate Complementary(component: seq<nat>, n: nat, v: nat)
    requires |component| == 2 * n + 2 && v <= n
  {
    && component[v] in component && component[v + n + 1] in component
    && Co(component, n, component[v]) == component[v + n + 1]
    && Co(component, n, component[v + n + 1]) == component[v]
  }

  ghost predicate Paired(pairs: map<nat, nat>, component: seq<nat>, n: nat, free: seq<nat>, v: nat)
    requires |component| == 2 * n + 2 && v <= n
  {
    component[v] in free && component[v + n + 1] in free ==> component[v] in pairs && component[v + n + 1] in pairs
  }

  lemma ComplementsPaired(g: Csr<int>, r: Csr<int>, n: nat, component: seq<nat>, num: nat)
    requires SymmetricResidual(g, r, n) && ComponentIds(g, component, num)
    ensures forall v: nat | v <= n :: Complementary(component, n, v)
  {
    forall v: nat | v <= n
      ensures Complementary(component, n, v)
    {
      ComplementaryAt(g, r, n, component, num, v);
    }
  }

  lemma ComplementaryAt(g: Csr<int>, r: Csr<int>, n: nat, component: seq<nat>, num: nat, v: nat)
    requires SymmetricResidual(g, r, n) && ComponentIds(g, component, num) && v <= n
    ensures Complementary(component, n, v)
  {
    var w := v + n + 1;
    CoOf(g, r, n, component, num, v);
    CoOf(g, r, n, component, num, w);
    assert Bar(n, v) == w && Bar(n, w) == v;
  }

  method PairUp(positive: seq<int>, negative: seq<int>, n: nat, ghost component: seq<nat>, ghost free: seq<nat>)
    returns (pairs: map<nat, nat>)
    requires |component| == 2 * n + 2 && forall v: nat | v <= n :: Complementary(component, n, v)
    requires |positive| == |negative| == n + 1
    requires forall v: nat {:trigger positive[v]} | v <= n :: positive[v] == if component[v] in free then component[v] else -1
    requires forall v: nat {:trigger negative[v]} | v <= n :: negative[v] == if component[v + n + 1] in free then component[v + n + 1] else -1
    ensures forall c | c in pairs :: c in component && pairs[c] == Co(component, n, c)
    ensures forall v: nat | v <= n :: Paired(pairs, component, n, free, v)
  {
    pairs := map[];
    for i := 0 to |positive|
      invariant forall c | c in pairs :: c in component && pairs[c] == Co(component, n, c)
      invariant forall v: nat | v < i :: Paired(pairs, component, n, free, v)
    {
      ghost var before := pairs;
      if positive[i] != -1 && negative[i] != -1 {
        assert Complementary(component, n, i);
        pairs := pairs[positive[i] := negative[i]];
        pairs := pairs[negative[i] := positive[i]];
        assert positive[i] == component[i] && negative[i] == component[i + n + 1];
      } else {
        assert component[i] !in free || component[i + n + 1] !in free;
      }
      assert Paired(pairs, component, n, free, i);
      assert forall v: nat | v < i :: Paired(before, component, n, free, v) ==> Paired(pairs, component, n, free, v);
    }
  }

  /** The component of a negated literal is free when the component of the literal is. */
  lemma CoFree(g: Csr<int>, r: Csr<int>, n: nat, component: seq<nat>, num: nat, v: nat)
    requires SymmetricResidual(g, r, n) && ComponentIds(g, component, num) && v < 2 * n + 2
    requires component[v] in component && Free(component, n, component[v])
    ensures component[Bar(n, v)] in component && Free(component, n, component[Bar(n, v)])
  {
    var w := Bar(n, v);
    assert w < |component| && Bar(n, w) == v;
    CoOf(g, r, n, component, num, v);
    CoOf(g, r, n, component, num, w);
    TerminalsAlone(g, r, n, component, num, w);
  }

  lemma FreeVariable(g: Csr<int>, r: Csr<int>, n: nat, component: seq<nat>, num: nat, c: nat) returns (v: nat)
    requires SymmetricResidual(g, r, n) && ComponentIds(g, component, num)
    requires c < num && (c in component ==> Free(component, n, c))
    ensures c in component && v <= n && (component[v] == c || component[v + n + 1] == c)
    ensures component[v] in component && Free(component, n, component[v])
    ensures component[v + n + 1] in component && Free(component, n, component[v + n + 1])
  {
    var u := VertexIn(component, c);
    CoFree(g, r, n, component, num, u);
    v := VariableOf(n, component, u);
  }

  lemma VertexIn(component: seq<nat>, c: nat) returns (u: nat)
    requires c in component
    ensures u < |component| && component[u] == c
  {
    u :| u < |component| && component[u] == c;
  }

  lemma VariableOf(n: nat, component: seq<nat>, u: nat) returns (v: nat)
    requires |component| == 2 * n + 2 && u < |component|
    requires component[u] in component && Free(component, n, component[u])
    requires component[Bar(n, u)] in component && Free(component, n, component[Bar(n, u)])
    ensures v <= n && (v == u || v + n + 1 == u)
    ensures component[v] in component && Free(component, n, component[v])
    ensures component[v + n + 1] in component && Free(component, n, component[v + n + 1])
  {
    v := if u <= n then u else u - (n + 1);
    assert Bar(n, u) == if u <= n then u + n + 1 else v;
  }

  method MarkAll(a: seq<int>, at: seq<nat>, value: int) returns (b: seq<int>)
    requires forall v | v in at :: v < |a|
    ensures |b| == |a| && forall v: nat | v < |a| :: b[v] == if v in at then value else a[v]
  {
    b := a;
    for k := 0 to |at|
      invariant |b| == |a| && forall v: nat | v < |a| :: b[v] == if v in at[..k] then value else a[v]
    {
      assert at[k] in at && at[..k + 1] == at[..k] + [at[k]];
      b := b[at[k] := value];
    }
    assert at[..|at|] == at;
  }
}
