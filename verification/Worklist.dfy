/** The out-degree worklist of method 1 on the component graph.

`co[c]` is the component complementary to `c`. A component is decided once it or its complement is fixed;
a free undecided component is fixed as soon as all its successors are decided. */
module Worklist {
  import opened CompressedMatrices
  import opened Queues

  ghost function Out(cg: Csr<int>, c: nat): set<nat>
    requires cg.Valid()
  {
    set j: nat | j < |cg.values| && cg.InRow(c, j) :: cg.colIndices[j]
  }

  lemma OutIsView(cg: Csr<int>, c: nat, d: nat)
    requires cg.Valid()
    ensures d in Out(cg, c) <==> (c, d) in cg.View()
  {
    if d in Out(cg, c) {
      var j: nat :| j < |cg.values| && cg.InRow(c, j) && cg.colIndices[j] == d;
      cg.RowIs(c, j);
      cg.ViewAt(j);
    }
    if (c, d) in cg.View() {
      var j := cg.IndexOf((c, d));
      assert cg.InRow(c, j);
    }
  }

  lemma {:induction false} OutPrefixSize(cg: Csr<int>, c: nat, k: nat)
    requires cg.Valid() && c < cg.numRows && cg.rowOffsets[c] <= k <= cg.rowOffsets[c + 1]
    ensures |set j: nat | j < k && cg.InRow(c, j) && j < |cg.values| :: cg.colIndices[j]| == k - cg.rowOffsets[c]
  {
    var s := set j: nat | j < k && cg.InRow(c, j) && j < |cg.values| :: cg.colIndices[j];
    if k == cg.rowOffsets[c] {
      assert s == {};
    } else {
      OutPrefixSize(cg, c, k - 1);
      var before := set j: nat | j < k - 1 && cg.InRow(c, j) && j < |cg.values| :: cg.colIndices[j];
      assert cg.InRow(c, k - 1);
      cg.RowIs(c, k - 1);
      var d := cg.colIndices[k - 1];
      assert d !in before;
      assert s == before + {d};
    }
  }

  lemma OutSize(cg: Csr<int>, c: nat)
    requires cg.Valid() && c < cg.numRows
    ensures |Out(cg, c)| == cg.rowOffsets[c + 1] - cg.rowOffsets[c]
  {
    OutPrefixSize(cg, c, cg.rowOffsets[c + 1]);
    assert Out(cg, c) == set j: nat | j < cg.rowOffsets[c + 1] && cg.InRow(c, j) && j < |cg.values| :: cg.colIndices[j];
  }

  ghost predicate IsTranspose(tg: Csr<int>, cg: Csr<int>) {
    && tg.Valid() && cg.Valid() && tg.numRows == tg.numCols == cg.numRows == cg.numCols
    && forall c: nat, d: nat :: (d, c) in tg.View() <==> (c, d) in cg.View()
  }

  method Transpose(cg: Csr<int>) returns (tg: Csr<int>)
    requires cg.Valid() && cg.numRows == cg.numCols
    ensures IsTranspose(tg, cg)
  {
    var m: map<Key, int> := map[];
    for i := 0 to cg.numRows
      invariant cg.rowOffsets[i] <= |cg.values|
      invariant forall c: nat, d: nat :: (d, c) in m <==> (c, d) in cg.ViewTo(cg.rowOffsets[i])
    {
      var start, end := cg.rowOffsets[i], cg.rowOffsets[i + 1];
      for j := start to end
        invariant end <= |cg.values|
        invariant forall c: nat, d: nat :: (d, c) in m <==> (c, d) in cg.ViewTo(j)
      {
        cg.RowIs(i, j);
        assert cg.KeyAt(j) == (i, cg.colIndices[j]);
        m := InsertNew(m, (cg.colIndices[j], i), cg.values[j]);
      }
    }
    forall key: Key | key in m
      ensures key.0 < cg.numRows && key.1 < cg.numRows
    {
      assert (key.1, key.0) in cg.View();
      var k := cg.IndexOf((key.1, key.0));
    }
    var r := FromMap(cg.numRows, cg.numRows, m);
    tg := r.value;
  }

  // ---------------------------------------------------------------- the state of the worklist

  /** Complementation is an involution under which the graph is skew-symmetric. */
  ghost predicate Skew(cg: Csr<int>, co: seq<nat>) {
    && cg.Valid() && cg.numRows == cg.numCols == |co|
    && (forall c: nat | c < |co| :: co[c] < |co| && co[co[c]] == c)
    && (forall c: nat, d: nat | c < |co| && d < |co| && d in Out(cg, c) :: co[c] in Out(cg, co[d]))
    && (forall c: nat, d: nat | c < |co| && d in Out(cg, c) :: d < |co|)
  }

  ghost predicate Free(co: seq<nat>, x0: nat, x0Bar: nat, c: nat)
    requires c < |co|
  {
    co[c] != c && c != x0 && c != x0Bar
  }

  ghost predicate Decided(co: seq<nat>, f: set<nat>, c: nat)
    requires c < |co|
  {
    c in f || co[c] in f
  }

  ghost function DecidedSet(co: seq<nat>, f: set<nat>): (s: set<nat>)
    ensures forall c: nat :: c in s <==> c < |co| && Decided(co, f, c)
  {
    set c: nat | c in UpTo(|co|) && Decided(co, f, c)
  }

  /** The fixed components are free, exclude their complements, and no arc leaves them. */
  ghost predicate FixedOk(cg: Csr<int>, co: seq<nat>, x0: nat, x0Bar: nat, f: set<nat>)
    requires Skew(cg, co)
  {
    && (forall c | c in f :: c < |co| && Free(co, x0, x0Bar, c) && co[c] !in f)
    && (forall c, d | c in f && d in Out(cg, c) :: d in f)
  }

  /** Every free undecided component has an undecided successor. */
  ghost predicate Exhausted(cg: Csr<int>, co: seq<nat>, x0: nat, x0Bar: nat, f: set<nat>)
    requires cg.Valid()
  {
    forall c: nat | c < |co| && Free(co, x0, x0Bar, c) && !Decided(co, f, c) :: !(Out(cg, c) <= DecidedSet(co, f))
  }

  /** `outDegrees` counts, for free undecided components, the successors outside `done`; all others hold -1. */
  ghost predicate Degrees(cg: Csr<int>, co: seq<nat>, x0: nat, x0Bar: nat, f: set<nat>, done: set<nat>, outDegrees: seq<int>)
    requires cg.Valid()
  {
    && |outDegrees| == |co|
    && forall c: nat | c < |co| ::
         outDegrees[c] == if Free(co, x0, x0Bar, c) && !Decided(co, f, c) then |Out(cg, c) - done| else -1
  }

  ghost predicate Queued(outDegrees: seq<int>, q: seq<nat>) {
    && (forall c | c in q :: c < |outDegrees|)
    && (forall c: nat | c < |outDegrees| && outDegrees[c] == 0 :: c in q)
  }

  ghost function Pending(outDegrees: seq<int>): (s: set<nat>)
    ensures forall c: nat :: c in s <==> c < |outDegrees| && outDegrees[c] > 0
  {
    set c: nat | c in UpTo(|outDegrees|) && outDegrees[c] > 0
  }

  method InitialDegrees(classified: seq<int>, cg: Csr<int>, x0: nat, x0Bar: nat, ghost co: seq<nat>)
    returns (outDegrees: seq<int>, q: seq<nat>)
    requires Skew(cg, co) && |classified| == |co| && x0 < |co| && x0Bar < |co|
    requires forall c: nat | c < |co| :: classified[c] == if co[c] == c then 0 else 1
    ensures Degrees(cg, co, x0, x0Bar, {}, {}, outDegrees) && Queued(outDegrees, q)
  {
    outDegrees := seq(cg.numRows, _ => -1);
    q := [];
    for i := 0 to |classified|
      invariant |outDegrees| == |co| && Queued(outDegrees[x0 := -1][x0Bar := -1], q)
      invariant forall c: nat | c < i :: outDegrees[c] == if co[c] != c then |Out(cg, c)| else -1
      invariant forall c: nat | i <= c < |co| :: outDegrees[c] == -1
    {
      if classified[i] == 1 {
        OutSize(cg, i);
        outDegrees := outDegrees[i := cg.rowOffsets[i + 1] - cg.rowOffsets[i]];
        if outDegrees[i] == 0 && i != x0 && i != x0Bar {
          q := q + [i];
        }
      }
    }
    outDegrees := outDegrees[x0 := -1];
    outDegrees := outDegrees[x0Bar := -1];
    assert forall c: nat | c < |co| :: Out(cg, c) - {} == Out(cg, c);
  }

  /** Counts component `i` as decided in the out-degree of each of its predecessors. */
  method DecrementPredecessors(tg: Csr<int>, i: nat, outDegrees0: seq<int>, q0: seq<nat>, ghost cg: Csr<int>, ghost done: set<nat>)
    returns (outDegrees: seq<int>, q: seq<nat>)
    requires IsTranspose(tg, cg) && i < cg.numRows == |outDegrees0| && i !in done && Queued(outDegrees0, q0)
    requires forall c: nat | c < |outDegrees0| && outDegrees0[c] >= 0 :: outDegrees0[c] == |Out(cg, c) - done|
    ensures |outDegrees| == |outDegrees0| && Queued(outDegrees, q)
    ensures forall c: nat | c < |outDegrees| ::
              outDegrees[c] == if outDegrees0[c] >= 0 then |Out(cg, c) - (done + {i})| else outDegrees0[c]
    ensures |q| + |Pending(outDegrees)| <= |q0| + |Pending(outDegrees0)|
  {
    outDegrees, q := outDegrees0, q0;
    var start, end := tg.rowOffsets[i], tg.rowOffsets[i + 1];
    ghost var seen: set<nat> := {};
    ghost var high, low := Undecided(cg, done), Undecided(cg, done + {i});
    for k := start to end
      invariant end <= |tg.values|
      invariant seen == RowTo(tg, i, k)
      invariant Counting(high, low, seen, outDegrees0, outDegrees) && Queued(outDegrees, q)
      invariant |q| + |Pending(outDegrees)| <= |q0| + |Pending(outDegrees0)|
    {
      PredecessorStep(tg, cg, i, k, done);
      outDegrees, q := DecrementOne(tg.colIndices[k], outDegrees, q, high, low, seen, outDegrees0);
      seen := seen + {tg.colIndices[k]};
    }
    AllPredecessorsSeen(tg, cg, i, done);
  }

  /** For every component the number of its successors outside `done`. */
  ghost function Undecided(cg: Csr<int>, done: set<nat>): (s: seq<int>)
    requires cg.Valid()
    ensures |s| == cg.numRows && forall c: nat | c < |s| :: s[c] == |Out(cg, c) - done|
  {
    seq(cg.numRows, c requires 0 <= c < cg.numRows => |Out(cg, c) - done|)
  }

  /** Counters move from `high` to `low` as their components enter `seen`; negative ones stay. */
  ghost predicate Counting(high: seq<int>, low: seq<int>, seen: set<nat>, before: seq<int>, outDegrees: seq<int>) {
    && |outDegrees| == |before| == |high| == |low|
    && forall c: nat | c < |before| ::
         outDegrees[c] == if before[c] < 0 then before[c] else if c in seen then low[c] else high[c]
  }

  method DecrementOne(c: nat, outDegrees0: seq<int>, q0: seq<nat>, ghost high: seq<int>, ghost low: seq<int>,
                      ghost seen: set<nat>, ghost before: seq<int>)
    returns (outDegrees: seq<int>, q: seq<nat>)
    requires c < |before| && c !in seen && Queued(outDegrees0, q0)
    requires Counting(high, low, seen, before, outDegrees0) && high[c] == low[c] + 1 && low[c] >= 0
    ensures Counting(high, low, seen + {c}, before, outDegrees) && Queued(outDegrees, q)
    ensures |q| + |Pending(outDegrees)| <= |q0| + |Pending(outDegrees0)|
  {
    outDegrees, q := outDegrees0, q0;
    if outDegrees[c] > 0 {
      outDegrees := outDegrees[c := outDegrees[c] - 1];
      if outDegrees[c] == 0 {
        q := q + [c];
      }
    }
    PendingShrinks(outDegrees0, outDegrees, c);
  }

  ghost function RowTo(tg: Csr<int>, i: nat, k: nat): set<nat>
    requires tg.Valid()
  {
    set j: nat | j < |tg.values| && j < k && tg.InRow(i, j) :: tg.colIndices[j]
  }

  lemma PredecessorStep(tg: Csr<int>, cg: Csr<int>, i: nat, k: nat, done: set<nat>)
    requires IsTranspose(tg, cg) && i < cg.numRows && i !in done
    requires tg.rowOffsets[i] <= k < tg.rowOffsets[i + 1]
    ensures k < |tg.values|
    ensures var c := tg.colIndices[k];
            c !in RowTo(tg, i, k) && RowTo(tg, i, k + 1) == RowTo(tg, i, k) + {c} && i in Out(cg, c) &&
            |Out(cg, c) - done| == |Out(cg, c) - (done + {i})| + 1
  {
    assert tg.InRow(i, k);
    tg.RowIs(i, k);
    var c := tg.colIndices[k];
    tg.ViewAt(k);
    OutIsView(cg, c, i);
    assert Out(cg, c) - done == Out(cg, c) - (done + {i}) + {i};
  }

  lemma AllPredecessorsSeen(tg: Csr<int>, cg: Csr<int>, i: nat, done: set<nat>)
    requires IsTranspose(tg, cg) && i < cg.numRows
    ensures forall c: nat | c !in RowTo(tg, i, tg.rowOffsets[i + 1]) :: Out(cg, c) - done == Out(cg, c) - (done + {i})
  {
    forall c: nat | i in Out(cg, c)
      ensures c in RowTo(tg, i, tg.rowOffsets[i + 1])
    {
      OutIsView(cg, c, i);
      var k := tg.IndexOf((i, c));
      assert tg.InRow(i, k);
    }
  }

  lemma PendingShrinks(before: seq<int>, after: seq<int>, c: nat)
    requires c < |before| && after == if before[c] > 0 then before[c := before[c] - 1] else before
    ensures |Pending(after)| + (if before[c] == 1 then 1 else 0) <= |Pending(before)|
  {
    if before[c] == 1 {
      assert Pending(after) == Pending(before) - {c};
    } else {
      assert Pending(after) == Pending(before);
    }
  }
}
