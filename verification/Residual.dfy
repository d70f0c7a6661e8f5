/** The residual matrices that the two methods read their fixed variables from. */
module Residuals {
  import opened CompressedMatrices
  import opened Flows
  import opened ImplicationNetwork
  import opened Graphs

  /** Residual capacity is left from `u` to `v`: an unsaturated arc, or an arc the other way that carries flow. */
  ghost predicate ResidualArc(a: Csr<int>, flow: seq<int>, k: nat, u: nat, v: nat)
    requires a.Valid() && k < |a.values| == |flow|
  {
    || (a.KeyAt(k) == (u, v) && flow[k] < a.values[k])
    || (a.KeyAt(k) == (v, u) && flow[k] > 0)
  }

  ghost predicate HasResidual(a: Csr<int>, flow: seq<int>, n: nat, u: nat, v: nat)
    requires a.Valid() && n <= |a.values| == |flow|
  {
    exists k: nat :: k < n && ResidualArc(a, flow, k, u, v)
  }

  /** `g` has exactly the residual arcs that neither leave the sink nor enter the source. */
  ghost predicate ClearedResidual(g: Csr<int>, a: Csr<int>, flow: seq<int>, s: nat, t: nat) {
    && g.Valid() && a.Valid() && |flow| == |a.values|
    && forall u: nat, v: nat :: IsArc(g, u, v) <==> u != t && v != s && HasResidual(a, flow, |flow|, u, v)
  }

  lemma ClosedIffResidualClosed(g: Csr<int>, a: Csr<int>, flow: seq<int>, s: nat, t: nat, w: set<nat>)
    requires ClearedResidual(g, a, flow, s, t) && Separates(s, t, w) && WithinCapacity(Arcs(a), flow)
    ensures Closed(g, w) <==> ResidualClosed(Arcs(a), flow, w)
  {
    if ResidualClosed(Arcs(a), flow, w) {
      forall u: nat, v: nat | u in w && IsArc(g, u, v)
        ensures v in w
      {
        var k: nat :| k < |flow| && ResidualArc(a, flow, k, u, v);
        assert Arcs(a)[k] == Arc(a.KeyAt(k).0, a.KeyAt(k).1, a.values[k]);
      }
      ClosedIf(g, w);
    }
    if Closed(g, w) {
      forall k: nat | k < |flow|
        ensures Leaves(Arcs(a)[k], w) ==> flow[k] == Arcs(a)[k].cap
        ensures Enters(Arcs(a)[k], w) ==> flow[k] == 0
      {
        var (u, v) := a.KeyAt(k);
        assert Arcs(a)[k] == Arc(u, v, a.values[k]);
        if u in w && v !in w && flow[k] < a.values[k] {
          assert ResidualArc(a, flow, k, u, v);
          ClosedArc(g, w, u, v);
        }
        if v in w && u !in w && flow[k] > 0 {
          assert ResidualArc(a, flow, k, v, u);
          ClosedArc(g, w, v, u);
        }
      }
    }
  }

  function Value(m: map<Key, int>, key: Key): int {
    if key in m then m[key] else 0
  }

  /** The matrix that has value `values[k]` where `a` stores its `k`-th arc: how the residual capacities and
  the flow are read back from the graph. */
  method OnArcsOf(a: Csr<int>, values: seq<int>) returns (b: Csr<int>)
    requires a.Valid() && |values| == |a.values|
    ensures b.Valid() && b.numRows == a.numRows && b.numCols == a.numCols
    ensures b.rowOffsets == a.rowOffsets && b.colIndices == a.colIndices && b.values == values
    ensures forall k: nat | k < |a.values| :: b.KeyAt(k) == a.KeyAt(k) && b.Lookup(a.KeyAt(k), 0) == values[k]
  {
    b := a.(values := values);
    SameKeys(a, b);
    forall k: nat | k < |a.values|
      ensures b.Lookup(a.KeyAt(k), 0) == values[k]
    {
      b.ViewAt(k);
    }
  }

  /** The `resid` matrix of method 2: remaining capacity forwards plus flow backwards, without arcs out of the
  sink and into the source. */
  method ResidualForMethod2(a: Csr<int>, n: nat, flow: seq<int>) returns (resid: Csr<int>)
    requires a.Valid() && a.numRows == a.numCols == 2 * n + 2
    requires |flow| == |a.values| && forall k | 0 <= k < |flow| :: 0 <= flow[k] <= a.values[k]
    ensures resid.numRows == resid.numCols == 2 * n + 2
    ensures ClearedResidual(resid, a, flow, Source(SourceMiddle, n), Sink(SourceMiddle, n))
  {
    var r := OnArcsOf(a, seq(|flow|, k requires 0 <= k < |flow| => a.values[k] - flow[k]));
    var f := OnArcsOf(a, flow);
    var residM := CollectResidual(a, r, f, flow, n, 2 * n + 1);
    resid := SquareMatrix(2 * n + 2, residM);
    ResidualCleared(resid, residM, a, flow, n, 2 * n + 1);
  }

  /** The matrix of a map whose positions all fit. */
  method SquareMatrix(n: nat, m: map<Key, int>) returns (c: Csr<int>)
    requires forall key: Key | key in m :: key.0 < n && key.1 < n
    ensures c.Valid() && c.numRows == c.numCols == n && c.View() == m
  {
    var r := FromMap(n, n, m);
    c := r.value;
  }

  lemma ResidualCleared(g: Csr<int>, m: map<Key, int>, a: Csr<int>, flow: seq<int>, s: nat, t: nat)
    requires g.Valid() && g.View() == m && a.Valid() && |flow| == |a.values| && ResidualSoFar(m, a, flow, |flow|, s, t)
    ensures ClearedResidual(g, a, flow, s, t)
  {
  }

  method CollectResidual(a: Csr<int>, r: Csr<int>, f: Csr<int>, ghost flow: seq<int>, source: nat, sink: nat)
    returns (residM: map<Key, int>)
    requires a.Valid() && a.numRows == a.numCols && |flow| == |a.values|
    requires forall k | 0 <= k < |flow| :: 0 <= flow[k] <= a.values[k]
    requires r.Valid() && f.Valid() && r.numRows == f.numRows == a.numRows && r.numCols == f.numCols == a.numCols
    requires forall k: nat | k < |flow| :: r.Lookup(a.KeyAt(k), 0) == a.values[k] - flow[k]
    requires forall k: nat | k < |flow| :: f.Lookup(a.KeyAt(k), 0) == flow[k]
    ensures ResidualSoFar(residM, a, flow, |flow|, source, sink)
  {
    residM := map[];
    for i := 0 to a.numRows
      invariant a.rowOffsets[i] <= |a.values|
      invariant ResidualSoFar(residM, a, flow, a.rowOffsets[i], source, sink)
    {
      var start, end := a.rowOffsets[i], a.rowOffsets[i + 1];
      for j := start to end
        invariant end <= |a.values|
        invariant ResidualSoFar(residM, a, flow, j, source, sink)
      {
        a.RowIs(i, j);
        assert a.KeyAt(j) == (i, a.colIndices[j]);
        var rValue := r.Get(i, a.colIndices[j], 0);
        var fValue := f.Get(i, a.colIndices[j], 0);
        residM := AddResidual(residM, a, flow, j, i, rValue.value, fValue.value, source, sink);
      }
    }
  }

  method AddResidual(m: map<Key, int>, a: Csr<int>, ghost flow: seq<int>, j: nat, i: nat, rValue: int, fValue: int,
                     source: nat, sink: nat) returns (m': map<Key, int>)
    requires a.Valid() && a.numRows == a.numCols && j < |a.values| == |flow| && a.KeyAt(j) == (i, a.colIndices[j])
    requires 0 <= flow[j] <= a.values[j] && rValue == a.values[j] - flow[j] && fValue == flow[j]
    requires ResidualSoFar(m, a, flow, j, source, sink)
    ensures ResidualSoFar(m', a, flow, j + 1, source, sink)
  {
    var c := a.colIndices[j];
    var m1 := m;
    if a.values[j] > 0 && rValue != 0 && i != sink && c != source {
      m1 := m1[(i, c) := Value(m1, (i, c)) + rValue];
    }
    assert forall key: Key | key in m1 :: m1[key] > 0 && (key in m || key == (i, c));
    m' := m1;
    if a.values[j] > 0 && fValue != 0 && c != sink && i != source {
      m' := m'[(c, i) := Value(m', (c, i)) + fValue];
    }
    assert forall key: Key | key in m' :: m'[key] > 0 && (key in m1 || key == (c, i));
    ResidualExtends(m, m', a, flow, j, source, sink);
  }

  lemma SameKeys(a: Csr<int>, b: Csr<int>)
    requires a.Valid() && b == a.(values := b.values) && |b.values| == |a.values|
    ensures b.Valid() && forall k: nat | k < |a.values| :: b.KeyAt(k) == a.KeyAt(k)
  {
    forall i: nat, j: nat, k: nat | j < k && b.InRow(i, j) && b.InRow(i, k)
      ensures k < |b.colIndices| ==> b.colIndices[j] < b.colIndices[k]
    {
      assert a.InRow(i, j) && a.InRow(i, k);
    }
    forall k: nat | k < |a.values|
      ensures b.KeyAt(k) == a.KeyAt(k)
    {
      var i := a.Row(k);
      assert b.InRow(i, k);
      b.RowIs(i, k);
    }
  }

  ghost predicate ResidualSoFar(m: map<Key, int>, a: Csr<int>, flow: seq<int>, j: nat, s: nat, t: nat)
    requires a.Valid() && j <= |a.values| == |flow|
  {
    && (forall key: Key | key in m :: m[key] > 0 && key.0 < a.numRows && key.1 < a.numRows)
    && (forall u: nat, v: nat :: (u, v) in m <==> u != t && v != s && HasResidual(a, flow, j, u, v))
  }

  lemma ResidualExtends(m: map<Key, int>, m': map<Key, int>, a: Csr<int>, flow: seq<int>, j: nat, s: nat, t: nat)
    requires a.Valid() && j < |a.values| == |flow| && ResidualSoFar(m, a, flow, j, s, t)
    requires a.numRows == a.numCols
    requires forall key: Key | key in m' :: m'[key] > 0 && (key in m || key == a.KeyAt(j) || key == (a.KeyAt(j).1, a.KeyAt(j).0))
    requires m.Keys <= m'.Keys
    requires forall u: nat, v: nat | (u, v) == a.KeyAt(j) || (v, u) == a.KeyAt(j) ::
               (u, v) in m' <==> (u, v) in m || (u != t && v != s && ResidualArc(a, flow, j, u, v))
    ensures ResidualSoFar(m', a, flow, j + 1, s, t)
  {
    forall u: nat, v: nat
      ensures (u, v) in m' <==> u != t && v != s && HasResidual(a, flow, j + 1, u, v)
    {
      NextResidual(a, flow, j, u, v);
    }
  }

  lemma NextResidual(a: Csr<int>, flow: seq<int>, j: nat, u: nat, v: nat)
    requires a.Valid() && j < |a.values| == |flow|
    ensures HasResidual(a, flow, j + 1, u, v) <==> HasResidual(a, flow, j, u, v) || ResidualArc(a, flow, j, u, v)
    ensures ResidualArc(a, flow, j, u, v) ==> a.KeyAt(j) == (u, v) || a.KeyAt(j) == (v, u)
  {
    if HasResidual(a, flow, j, u, v) {
      var k: nat :| k < j && ResidualArc(a, flow, k, u, v);
      assert k < j + 1;
    }
  }

  // ---------------------------------------------------------------- method 1

  /** No arc of the network has a reverse arc. */
  ghost predicate OneWay(a: Csr<int>)
    requires a.Valid()
  {
    NoReverse(a.View())
  }

  ghost predicate CarriesFlow(a: Csr<int>, flow: seq<int>, n: nat, u: nat, v: nat)
    requires a.Valid() && n <= |a.values| == |flow|
  {
    exists k: nat :: k < n && a.KeyAt(k) == (u, v) && flow[k] > 0
  }

  /** The residual matrix as `maxFlow` returns it: what is left of each arc, and below it, where the reverse
  position is empty, the flow that can be sent back. The completion is right because no arc has a reverse arc. */
  method ResidualForMethod1(a: Csr<int>, flow: seq<int>) returns (resid: Csr<int>)
    requires a.Valid() && a.numRows == a.numCols && OneWay(a)
    requires |flow| == |a.values| && forall k | 0 <= k < |flow| :: 0 <= flow[k] <= a.values[k]
    ensures resid.Valid() && resid.numRows == resid.numCols == a.numRows
    ensures forall k | 0 <= k < |resid.values| :: resid.values[k] >= 0
    ensures forall u: nat, v: nat :: IsArc(resid, u, v) <==> HasResidual(a, flow, |flow|, u, v)
  {
    var r := OnArcsOf(a, seq(|flow|, k requires 0 <= k < |flow| => a.values[k] - flow[k]));
    SameView(a, r);
    var completed := CompletedMap(a, r, flow);
    resid := SquareMatrix(a.numRows, completed);
    NoNegativeEntry(resid);
  }

  /** The residual capacities with the missing reverse entries inserted. */
  method CompletedMap(a: Csr<int>, r: Csr<int>, ghost flow: seq<int>) returns (completed: map<Key, int>)
    requires a.Valid() && r.Valid() && OneWay(a) && a.numRows == a.numCols == r.numRows == r.numCols
    requires r.rowOffsets == a.rowOffsets && r.colIndices == a.colIndices && |flow| == |a.values| == |r.values|
    requires forall k | 0 <= k < |flow| :: 0 <= flow[k] <= a.values[k] && r.values[k] == a.values[k] - flow[k]
    requires forall k: nat | k < |flow| :: r.Lookup(a.KeyAt(k), 0) == a.values[k] - flow[k]
    requires r.View().Keys == a.View().Keys
    ensures forall key: Key | key in completed :: key.0 < a.numRows && key.1 < a.numRows
    ensures forall key: Key | key in completed :: completed[key] >= 0
    ensures forall u: nat, v: nat :: (u, v) in completed && completed[(u, v)] != 0 <==> HasResidual(a, flow, |flow|, u, v)
  {
    var rm := CompressedMatrixToMap(r);
    var missing := MissingEntries(a, r, flow);
    completed := InsertAll(rm, missing);
    CompletedInRange(a, flow, missing, completed);
    CompletedIsResidual(a, r, flow, missing, completed);
  }

  lemma NoNegativeEntry(c: Csr<int>)
    requires c.Valid() && forall key: Key | key in c.View() :: c.View()[key] >= 0
    ensures forall k | 0 <= k < |c.values| :: c.values[k] >= 0
  {
    forall k: nat | k < |c.values|
      ensures c.values[k] >= 0
    {
      c.ViewAt(k);
    }
  }

  lemma CompletedInRange(a: Csr<int>, flow: seq<int>, missing: map<Key, int>, completed: map<Key, int>)
    requires a.Valid() && a.numRows == a.numCols && |flow| == |a.values| && MissingFor(missing, a, flow, |flow|)
    requires completed.Keys == a.View().Keys + missing.Keys
    ensures forall key: Key | key in completed :: key.0 < a.numRows && key.1 < a.numRows
  {
    forall key: Key | key in completed
      ensures key.0 < a.numRows && key.1 < a.numRows
    {
      if key in a.View() {
        var k := a.IndexOf(key);
      } else {
        assert CarriesFlow(a, flow, |flow|, key.1, key.0);
      }
    }
  }

  lemma SameView(a: Csr<int>, b: Csr<int>)
    requires a.Valid() && b.Valid() && |a.values| == |b.values|
    requires forall k: nat | k < |a.values| :: b.KeyAt(k) == a.KeyAt(k)
    ensures b.View().Keys == a.View().Keys
  {
    forall key: Key
      ensures key in a.View() <==> key in b.View()
    {
      if key in a.View() { b.ViewAt(a.IndexOf(key)); }
      if key in b.View() { a.ViewAt(b.IndexOf(key)); }
    }
  }

  /** The reverse positions of those among the first `n` arcs that carry flow. */
  ghost predicate MissingFor(missing: map<Key, int>, a: Csr<int>, flow: seq<int>, n: nat)
    requires a.Valid() && n <= |a.values| == |flow|
  {
    && (forall key: Key | key in missing :: missing[key] > 0)
    && (forall u: nat, v: nat :: (u, v) in missing <==> CarriesFlow(a, flow, n, v, u))
  }

  method MissingEntries(a: Csr<int>, r: Csr<int>, ghost flow: seq<int>) returns (missing: map<Key, int>)
    requires a.Valid() && r.Valid() && OneWay(a) && a.numRows == a.numCols == r.numRows == r.numCols
    requires r.rowOffsets == a.rowOffsets && r.colIndices == a.colIndices && |flow| == |a.values| == |r.values|
    requires forall k | 0 <= k < |flow| :: 0 <= flow[k] <= a.values[k] && r.values[k] == a.values[k] - flow[k]
    requires r.View().Keys == a.View().Keys
    ensures MissingFor(missing, a, flow, |flow|)
  {
    missing := map[];
    for i := 0 to r.numRows
      invariant a.rowOffsets[i] <= |a.values|
      invariant MissingFor(missing, a, flow, a.rowOffsets[i])
    {
      var start, end := r.rowOffsets[i], r.rowOffsets[i + 1];
      for j := start to end
        invariant end <= |a.values|
        invariant MissingFor(missing, a, flow, j)
      {
        a.RowIs(i, j);
        var c := r.colIndices[j];
        assert a.KeyAt(j) == (i, c);
        a.ViewAt(j);
        var arc := a.Get(i, c, 0);
        var rcr := r.Get(c, i, 0);
        assert arc.value == a.values[j] && rcr.value == 0;
        missing := AddMissing(missing, a, flow, j, i, c, arc.value, r.values[j], rcr.value);
      }
    }
  }

  method AddMissing(missing: map<Key, int>, a: Csr<int>, ghost flow: seq<int>, j: nat, r: nat, c: nat, arc: int, rrc: int, rcr: int)
    returns (after: map<Key, int>)
    requires a.Valid() && j < |a.values| == |flow| && MissingFor(missing, a, flow, j) && a.KeyAt(j) == (r, c)
    requires 0 <= flow[j] <= arc && rrc == arc - flow[j] && rcr == 0
    ensures MissingFor(after, a, flow, j + 1)
  {
    after := missing;
    if arc != 0 && rrc + rcr - arc != 0 {
      after := InsertNew(after, (c, r), arc - rrc);
    }
    forall u: nat, v: nat
      ensures (u, v) in after <==> CarriesFlow(a, flow, j + 1, v, u)
    {
      assert CarriesFlow(a, flow, j + 1, v, u) <==> CarriesFlow(a, flow, j, v, u) || (a.KeyAt(j) == (v, u) && flow[j] > 0);
    }
  }

  /** Inserts every entry of `extra` whose position is free. */
  method InsertAll(m: map<Key, int>, extra: map<Key, int>) returns (r: map<Key, int>)
    ensures r.Keys == m.Keys + extra.Keys
    ensures forall key: Key | key in r :: r[key] == if key in m then m[key] else extra[key]
  {
    r := m;
    var rest := extra.Keys;
    while rest != {}
      invariant rest <= extra.Keys && r.Keys == m.Keys + (extra.Keys - rest)
      invariant forall key: Key | key in r :: r[key] == if key in m then m[key] else extra[key]
    {
      var key :| key in rest;
      r := InsertNew(r, key, extra[key]);
      rest := rest - {key};
    }
  }

  lemma CompletedIsResidual(a: Csr<int>, r: Csr<int>, flow: seq<int>, missing: map<Key, int>, completed: map<Key, int>)
    requires a.Valid() && r.Valid() && OneWay(a) && |flow| == |a.values|
    requires forall k | 0 <= k < |flow| :: 0 <= flow[k] <= a.values[k]
    requires r.View().Keys == a.View().Keys
    requires forall k: nat | k < |flow| :: r.Lookup(a.KeyAt(k), 0) == a.values[k] - flow[k]
    requires MissingFor(missing, a, flow, |flow|)
    requires completed.Keys == a.View().Keys + missing.Keys
    requires forall key: Key | key in completed :: completed[key] == if key in r.View() then r.View()[key] else missing[key]
    ensures forall key: Key | key in completed :: completed[key] >= 0
    ensures forall u: nat, v: nat :: (u, v) in completed && completed[(u, v)] != 0 <==> HasResidual(a, flow, |flow|, u, v)
  {
    forall key: Key | key in completed
      ensures completed[key] >= 0
    {
      if key in a.View() {
        var k := a.IndexOf(key);
      }
    }
    forall u: nat, v: nat
      ensures (u, v) in completed && completed[(u, v)] != 0 <==> HasResidual(a, flow, |flow|, u, v)
    {
      if (u, v) in a.View() {
        OnArc(a, r, flow, u, v);
        assert completed[(u, v)] == r.View()[(u, v)];
      } else {
        assert HasResidual(a, flow, |flow|, u, v) <==> CarriesFlow(a, flow, |flow|, v, u) by {
          OffArc(a, flow, u, v);
        }
      }
    }
  }

  lemma OnArc(a: Csr<int>, r: Csr<int>, flow: seq<int>, u: nat, v: nat)
    requires a.Valid() && r.Valid() && OneWay(a) && |flow| == |a.values| && (u, v) in a.View()
    requires r.View().Keys == a.View().Keys
    requires forall k | 0 <= k < |flow| :: 0 <= flow[k] <= a.values[k]
    requires forall k: nat | k < |flow| :: r.Lookup(a.KeyAt(k), 0) == a.values[k] - flow[k]
    ensures r.View()[(u, v)] != 0 <==> HasResidual(a, flow, |flow|, u, v)
  {
    var i := a.IndexOf((u, v));
    assert r.View()[(u, v)] == a.values[i] - flow[i];
    if flow[i] < a.values[i] {
      assert ResidualArc(a, flow, i, u, v);
    }
    if HasResidual(a, flow, |flow|, u, v) {
      var k: nat :| k < |flow| && ResidualArc(a, flow, k, u, v);
      a.ViewAt(k);
      a.KeysDistinct();
      assert k == i;
    }
  }

  lemma OffArc(a: Csr<int>, flow: seq<int>, u: nat, v: nat)
    requires a.Valid() && |flow| == |a.values| && (u, v) !in a.View()
    ensures HasResidual(a, flow, |flow|, u, v) <==> CarriesFlow(a, flow, |flow|, v, u)
  {
    if HasResidual(a, flow, |flow|, u, v) {
      var k: nat :| k < |flow| && ResidualArc(a, flow, k, u, v);
      a.ViewAt(k);
    }
    if CarriesFlow(a, flow, |flow|, v, u) {
      var k: nat :| k < |flow| && a.KeyAt(k) == (v, u) && flow[k] > 0;
      assert ResidualArc(a, flow, k, u, v);
    }
  }
}
