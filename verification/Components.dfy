/** Strongly connected components of the symmetrised residual graph: literal lists, condensation, classification. */
module Components {
  import opened CompressedMatrices
  import opened Graphs
  import opened Queues

  /** The vertices of a component, and its literals as variable numbers (the terminals appear as variable 0). */
  datatype SC = SC(original: seq<nat>, positive: seq<nat>, negative: seq<nat>)

  /** What the component routine promises: ids below `num`, all used, equal exactly for mutually reachable vertices. */
  ghost predicate ComponentIds(g: Csr<int>, component: seq<nat>, num: nat) {
    && g.Valid() && g.numRows == g.numCols == |component|
    && (forall v | 0 <= v < |component| :: component[v] < num)
    && (forall c: nat | c < num :: c in component)
    && (forall u: nat, v: nat | u < |component| && v < |component| ::
          component[u] == component[v] <==> Reaches(g, u, v) && Reaches(g, v, u))
  }

  /** The lists of component `c` cover exactly its vertices below `upto`. */
  ghost predicate ListsComponent(sc: SC, component: seq<nat>, n: nat, c: nat, upto: nat)
    requires upto <= |component|
  {
    && (forall v: nat :: v in sc.original <==> v < upto && component[v] == c)
    && (forall v: nat :: v in sc.positive <==> v < upto && v <= n && component[v] == c)
    && (forall v: nat :: v in sc.negative <==> v + n + 1 < upto && component[v + n + 1] == c)
    && (forall v | v in sc.original :: sc.original[0] <= v)
  }

  /** No literal is listed twice. */
  ghost predicate NoRepeats(sc: SC) {
    Distinct(sc.positive) && Distinct(sc.negative)
  }

  method ListComponents(component: seq<nat>, num: nat, n: nat) returns (vsc: seq<SC>)
    requires forall v | 0 <= v < |component| :: component[v] < num
    ensures |vsc| == num && forall c: nat | c < num :: ListsComponent(vsc[c], component, n, c, |component|)
    ensures forall c: nat | c < num :: NoRepeats(vsc[c])
  {
    vsc := seq(num, _ => SC([], [], []));
    for i := 0 to |component|
      invariant |vsc| == num
      invariant forall c: nat | c < num :: ListsComponent(vsc[c], component, n, c, i)
      invariant forall c: nat | c < num :: NoRepeats(vsc[c])
    {
      var which := component[i];
      var sc := vsc[which];
      var sc' := if i <= n then SC(sc.original + [i], sc.positive + [i], sc.negative)
                 else SC(sc.original + [i], sc.positive, sc.negative + [i - (n + 1)]);
      ListsAppend(sc, sc', component, n, i);
      vsc := vsc[which := sc'];
    }
  }

  lemma ListsAppend(sc: SC, sc': SC, component: seq<nat>, n: nat, i: nat)
    requires i < |component| && ListsComponent(sc, component, n, component[i], i)
    requires sc' == if i <= n then SC(sc.original + [i], sc.positive + [i], sc.negative)
                    else SC(sc.original + [i], sc.positive, sc.negative + [i - (n + 1)])
    ensures ListsComponent(sc', component, n, component[i], i + 1)
    ensures NoRepeats(sc) ==> NoRepeats(sc')
  {
    if sc.original != [] {
      assert sc.original[0] in sc.original;
    }
    if NoRepeats(sc) {
      if i <= n {
        PushBack(sc.positive, i);
      } else {
        var v: nat := i - (n + 1);
        assert v !in sc.negative;
        PushBack(sc.negative, v);
      }
    }
  }

  ghost predicate ComponentArc(g: Csr<int>, component: seq<nat>, c: nat, d: nat)
    requires g.Valid() && g.numRows == g.numCols == |component|
  {
    c != d && exists u: nat, v: nat :: u < |component| && v < |component| &&
                 component[u] == c && component[v] == d && IsArc(g, u, v)
  }

  /** `cg` has exactly one entry, with value 1, for every pair of components joined by an arc. */
  ghost predicate Condensation(cg: Csr<int>, g: Csr<int>, component: seq<nat>, num: nat) {
    && g.Valid() && g.numRows == g.numCols == |component|
    && cg.Valid() && cg.numRows == cg.numCols == num
    && (forall k | 0 <= k < |cg.values| :: cg.values[k] == 1)
    && (forall c: nat, d: nat :: (c, d) in cg.View() <==> ComponentArc(g, component, c, d))
  }

  ghost predicate EntryArc(g: Csr<int>, component: seq<nat>, k: nat, c: nat, d: nat)
    requires g.Valid() && g.numRows == g.numCols == |component| && k < |g.values|
  {
    c != d && g.values[k] > 0 && component[g.KeyAt(k).0] == c && component[g.KeyAt(k).1] == d
  }

  ghost predicate CondensedSoFar(m: map<Key, int>, g: Csr<int>, component: seq<nat>, j: nat)
    requires g.Valid() && g.numRows == g.numCols == |component| && j <= |g.values|
  {
    && (forall key: Key | key in m :: m[key] == 1)
    && (forall c: nat, d: nat :: (c, d) in m <==> exists k: nat :: k < j && EntryArc(g, component, k, c, d))
  }

  method BuildCondensation(g: Csr<int>, component: seq<nat>, num: nat) returns (cg: Csr<int>)
    requires ComponentIds(g, component, num) && forall k | 0 <= k < |g.values| :: g.values[k] > 0
    ensures Condensation(cg, g, component, num)
  {
    var m: map<Key, int> := map[];
    for i := 0 to g.numRows
      invariant g.rowOffsets[i] <= |g.values|
      invariant CondensedSoFar(m, g, component, g.rowOffsets[i])
    {
      var start, end := g.rowOffsets[i], g.rowOffsets[i + 1];
      for j := start to end
        invariant end <= |g.values|
        invariant CondensedSoFar(m, g, component, j)
      {
        g.RowIs(i, j);
        var sc1, sc2 := component[i], component[g.colIndices[j]];
        ghost var before := m;
        if sc1 != sc2 && g.values[j] > 0 && (sc1, sc2) !in m {
          m := InsertNew(m, (sc1, sc2), 1);
        }
        CondensedStep(before, m, g, component, j, sc1, sc2);
      }
    }
    CondensedAll(m, g, component, num);
    var r := FromMap(num, num, m);
    cg := r.value;
    forall k: nat | k < |cg.values|
      ensures cg.values[k] == 1
    {
      cg.ViewAt(k);
    }
  }

  lemma CondensedStep(before: map<Key, int>, after: map<Key, int>, g: Csr<int>, component: seq<nat>, j: nat, sc1: nat, sc2: nat)
    requires g.Valid() && g.numRows == g.numCols == |component| && j < |g.values|
    requires CondensedSoFar(before, g, component, j) && g.values[j] > 0
    requires sc1 == component[g.KeyAt(j).0] && sc2 == component[g.KeyAt(j).1]
    requires after == if sc1 != sc2 then InsertNew(before, (sc1, sc2), 1) else before
    ensures CondensedSoFar(after, g, component, j + 1)
  {
    forall c: nat, d: nat
      ensures (c, d) in after <==> exists k: nat :: k < j + 1 && EntryArc(g, component, k, c, d)
    {
      assert EntryArc(g, component, j, c, d) <==> c != d && (c, d) == (sc1, sc2);
      if (c, d) in after {
        if (c, d) in before {
          var k: nat :| k < j && EntryArc(g, component, k, c, d);
          assert k < j + 1;
        } else {
          assert EntryArc(g, component, j, c, d);
        }
      }
    }
  }

  lemma CondensedAll(m: map<Key, int>, g: Csr<int>, component: seq<nat>, num: nat)
    requires ComponentIds(g, component, num) && forall k | 0 <= k < |g.values| :: g.values[k] > 0
    requires CondensedSoFar(m, g, component, |g.values|)
    ensures forall c: nat, d: nat :: (c, d) in m <==> ComponentArc(g, component, c, d)
    ensures forall key: Key | key in m :: key.0 < num && key.1 < num
  {
    forall c: nat, d: nat
      ensures (c, d) in m <==> ComponentArc(g, component, c, d)
      ensures (c, d) in m ==> c < num && d < num
    {
      if (c, d) in m {
        var k: nat :| k < |g.values| && EntryArc(g, component, k, c, d);
        g.ViewAt(k);
        var (u, v) := g.KeyAt(k);
        assert IsArc(g, u, v);
      }
      if ComponentArc(g, component, c, d) {
        var u: nat, v: nat :| u < |component| && v < |component| && component[u] == c && component[v] == d && IsArc(g, u, v);
        var k := g.IndexOf((u, v));
        assert EntryArc(g, component, k, c, d);
      }
    }
  }

  /** 1 for a component that contains no variable with both signs, 0 otherwise. */
  method ClassifyComponents(s: seq<SC>) returns (ret: seq<int>)
    ensures |ret| == |s|
    ensures forall i | 0 <= i < |s| :: ret[i] == if exists v :: v in s[i].positive && v in s[i].negative then 0 else 1
  {
    ret := [];
    for i := 0 to |s|
      invariant |ret| == i
      invariant forall j | 0 <= j < i :: ret[j] == if exists v :: v in s[j].positive && v in s[j].negative then 0 else 1
    {
      var flag := true;
      var j := 0;
      while j < |s[i].negative| && flag
        invariant 0 <= j <= |s[i].negative|
        invariant flag <==> forall t | 0 <= t < j :: s[i].negative[t] !in s[i].positive
      {
        if s[i].negative[j] in s[i].positive {
          flag := false;
        }
        j := j + 1;
      }
      ret := ret + [if flag then 1 else 0];
    }
  }
}
