/** Flows, cuts and residual arcs of a capacitated network given as a list of arcs. */
module Flows {

  datatype Arc = Arc(src: nat, dst: nat, cap: int)

  predicate Leaves(a: Arc, w: set<nat>) {
    a.src in w && a.dst !in w
  }

  predicate Enters(a: Arc, w: set<nat>) {
    a.dst in w && a.src !in w
  }

  ghost function CutCapacity(arcs: seq<Arc>, w: set<nat>): int {
    if arcs == [] then 0 else
      var a := arcs[|arcs| - 1];
      CutCapacity(arcs[..|arcs| - 1], w) + if Leaves(a, w) then a.cap else 0
  }

  /** Flow out of `w` minus flow into `w`. */
  ghost function NetOut(arcs: seq<Arc>, flow: seq<int>, w: set<nat>): int
    requires |flow| == |arcs|
  {
    if arcs == [] then 0 else
      var k := |arcs| - 1;
      NetOut(arcs[..k], flow[..k], w) +
      if Leaves(arcs[k], w) then flow[k] else if Enters(arcs[k], w) then -flow[k] else 0
  }

  /** Residual capacity out of `w`: unused capacity forwards, cancellable flow backwards. */
  ghost function ResidualOut(arcs: seq<Arc>, flow: seq<int>, w: set<nat>): int
    requires |flow| == |arcs|
  {
    if arcs == [] then 0 else
      var k := |arcs| - 1;
      ResidualOut(arcs[..k], flow[..k], w) +
      if Leaves(arcs[k], w) then arcs[k].cap - flow[k] else if Enters(arcs[k], w) then flow[k] else 0
  }

  ghost predicate WithinCapacity(arcs: seq<Arc>, flow: seq<int>) {
    |flow| == |arcs| && forall k | 0 <= k < |arcs| :: 0 <= flow[k] <= arcs[k].cap
  }

  ghost predicate Feasible(arcs: seq<Arc>, flow: seq<int>, s: nat, t: nat) {
    && WithinCapacity(arcs, flow)
    && forall v: nat | v != s && v != t :: NetOut(arcs, flow, {v}) == 0
  }

  /** `w` is closed under arcs with residual capacity. */
  ghost predicate ResidualClosed(arcs: seq<Arc>, flow: seq<int>, w: set<nat>)
    requires |flow| == |arcs|
  {
    forall k | 0 <= k < |arcs| ::
      && (Leaves(arcs[k], w) ==> flow[k] == arcs[k].cap)
      && (Enters(arcs[k], w) ==> flow[k] == 0)
  }

  /** What a maximum-flow routine promises: a feasible flow whose residual graph does not lead from source to sink. */
  ghost predicate MaximumFlow(arcs: seq<Arc>, flow: seq<int>, s: nat, t: nat) {
    && Feasible(arcs, flow, s, t)
    && exists w: set<nat> :: s in w && t !in w && ResidualClosed(arcs, flow, w)
  }

  lemma {:induction false} CutIsFlowPlusResidual(arcs: seq<Arc>, flow: seq<int>, w: set<nat>)
    requires |flow| == |arcs|
    ensures CutCapacity(arcs, w) == NetOut(arcs, flow, w) + ResidualOut(arcs, flow, w)
  {
    if arcs != [] {
      CutIsFlowPlusResidual(arcs[..|arcs| - 1], flow[..|arcs| - 1], w);
    }
  }

  lemma {:induction false} NetOutSplits(arcs: seq<Arc>, flow: seq<int>, w: set<nat>, v: nat)
    requires |flow| == |arcs| && v in w
    ensures NetOut(arcs, flow, w) == NetOut(arcs, flow, {v}) + NetOut(arcs, flow, w - {v})
  {
    if arcs != [] {
      NetOutSplits(arcs[..|arcs| - 1], flow[..|arcs| - 1], w, v);
    }
  }

  lemma {:induction false} NetOutOfNothing(arcs: seq<Arc>, flow: seq<int>)
    requires |flow| == |arcs|
    ensures NetOut(arcs, flow, {}) == 0
  {
    if arcs != [] {
      NetOutOfNothing(arcs[..|arcs| - 1], flow[..|arcs| - 1]);
    }
  }

  /** Conservation: whatever set separates source from sink, the flow across it is the value of the flow. */
  lemma {:induction false} NetOutIsValue(arcs: seq<Arc>, flow: seq<int>, s: nat, t: nat, w: set<nat>)
    requires Feasible(arcs, flow, s, t) && t !in w
    ensures NetOut(arcs, flow, w) == if s in w then NetOut(arcs, flow, {s}) else 0
    decreases |w|
  {
    if w == {} {
      NetOutOfNothing(arcs, flow);
    } else {
      var v :| v in w;
      NetOutSplits(arcs, flow, w, v);
      NetOutIsValue(arcs, flow, s, t, w - {v});
    }
  }

  lemma {:induction false} ResidualOutSign(arcs: seq<Arc>, flow: seq<int>, w: set<nat>)
    requires WithinCapacity(arcs, flow)
    ensures ResidualOut(arcs, flow, w) >= 0
    ensures ResidualOut(arcs, flow, w) == 0 <==> ResidualClosed(arcs, flow, w)
  {
    if arcs != [] {
      var k := |arcs| - 1;
      ResidualOutSign(arcs[..k], flow[..k], w);
      assert ResidualClosed(arcs, flow, w) <==>
        ResidualClosed(arcs[..k], flow[..k], w) &&
        (Leaves(arcs[k], w) ==> flow[k] == arcs[k].cap) && (Enters(arcs[k], w) ==> flow[k] == 0) by {
        assert forall i | 0 <= i < k :: arcs[..k][i] == arcs[i] && flow[..k][i] == flow[i];
      }
    }
  }

  /** No separating set has less capacity than the value of a feasible flow, and exactly the residual-closed
  sets attain it. */
  lemma CutsAgainstFlow(arcs: seq<Arc>, flow: seq<int>, s: nat, t: nat, w: set<nat>)
    requires Feasible(arcs, flow, s, t) && s in w && t !in w
    ensures CutCapacity(arcs, w) >= NetOut(arcs, flow, {s})
    ensures CutCapacity(arcs, w) == NetOut(arcs, flow, {s}) <==> ResidualClosed(arcs, flow, w)
  {
    CutIsFlowPlusResidual(arcs, flow, w);
    NetOutIsValue(arcs, flow, s, t, w);
    ResidualOutSign(arcs, flow, w);
  }

  ghost predicate Separates(s: nat, t: nat, w: set<nat>) {
    s in w && t !in w
  }

  /** Under a maximum flow the minimum separating sets are exactly the residual-closed ones. */
  lemma MinimumIffClosed(arcs: seq<Arc>, flow: seq<int>, s: nat, t: nat, w: set<nat>)
    requires MaximumFlow(arcs, flow, s, t) && Separates(s, t, w)
    ensures ResidualClosed(arcs, flow, w) <==>
            forall v: set<nat> | Separates(s, t, v) :: CutCapacity(arcs, w) <= CutCapacity(arcs, v)
  {
    CutsAgainstFlow(arcs, flow, s, t, w);
    forall v: set<nat> | Separates(s, t, v)
      ensures CutCapacity(arcs, v) >= NetOut(arcs, flow, {s})
    {
      CutsAgainstFlow(arcs, flow, s, t, v);
    }
    var c: set<nat> :| s in c && t !in c && ResidualClosed(arcs, flow, c);
    CutsAgainstFlow(arcs, flow, s, t, c);
    assert Separates(s, t, c);
  }
}
