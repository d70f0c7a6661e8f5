/** The implication network of a posiform, in the two vertex numberings the library uses. */
module ImplicationNetwork {
  import opened CompressedMatrices
  import opened Qubo
  import opened Sums
  import opened Flows
  import RoofDuality

  /** `SourceFirst` numbers source, x_1..x_n, sink, negations; `SourceMiddle` numbers x_1..x_n, source, negations, sink. */
  datatype Layout = SourceFirst | SourceMiddle

  function Source(l: Layout, n: nat): nat {
    if l.SourceFirst? then 0 else n
  }

  function Bar(n: nat, v: nat): nat {
    if v <= n then v + (n + 1) else v - (n + 1)
  }

  function Sink(l: Layout, n: nat): nat {
    Bar(n, Source(l, n))
  }

  /** The vertex of a literal code; code 0 is the source. */
  function Vertex(l: Layout, n: nat, code: int): (v: nat)
    requires Abs(code) <= n
  {
    if code == 0 then Source(l, n)
    else if code > 0 then (if l.SourceFirst? then code else code - 1)
    else Bar(n, if l.SourceFirst? then -code else -code - 1)
  }

  lemma VertexFacts(l: Layout, n: nat, code: int)
    requires Abs(code) <= n
    ensures Vertex(l, n, code) < 2 * n + 2 && Vertex(l, n, code) != Sink(l, n)
    ensures code != 0 ==> Bar(n, Vertex(l, n, code)) == Vertex(l, n, -code)
    ensures Bar(n, Bar(n, Vertex(l, n, code))) == Vertex(l, n, code)
    ensures VarOf(l, n, Vertex(l, n, code)) == Abs(code) == VarOf(l, n, Bar(n, Vertex(l, n, code)))
  {
  }

  lemma VertexInjective(l: Layout, n: nat, a: int, b: int)
    requires Abs(a) <= n && Abs(b) <= n && Vertex(l, n, a) == Vertex(l, n, b)
    ensures a == b
  {
  }

  /** The variable (1-based) a vertex belongs to, 0 for source and sink. */
  function VarOf(l: Layout, n: nat, v: nat): nat {
    var w := if v <= n then v else if v - (n + 1) <= n then v - (n + 1) else 0;
    if l.SourceFirst? then w else if w == n then 0 else w + 1
  }

  ghost function Codes(l: Layout, n: nat, w: set<nat>): set<int> {
    set code | 0 - n <= code <= n && Abs(code) <= n && Vertex(l, n, code) in w
  }

  /** The two mirrored arcs of a term with literal codes `a` and `b`. */
  function AddTerm(l: Layout, n: nat, m: map<Key, int>, a: int, b: int, cap: int): map<Key, int>
    requires Abs(a) <= n && Abs(b) <= n
  {
    m[(Vertex(l, n, a), Bar(n, Vertex(l, n, b))) := cap][(Vertex(l, n, b), Bar(n, Vertex(l, n, a))) := cap]
  }

  function LinearNetwork(l: Layout, n: nat, ts: seq<LinearTerm>): map<Key, int>
    requires forall t | t in ts :: IsLiteral(n, t.lit)
  {
    if ts == [] then map[] else
      var t := ts[|ts| - 1];
      assert t in ts && IsLiteral(n, t.lit);
      AddTerm(l, n, LinearNetwork(l, n, ts[..|ts| - 1]), 0, t.lit, t.coeff)
  }

  function QuadraticNetwork(l: Layout, n: nat, base: map<Key, int>, ts: seq<QuadraticTerm>): map<Key, int>
    requires forall t | t in ts :: IsLiteral(n, t.lit1) && IsLiteral(n, t.lit2)
  {
    if ts == [] then base else
      var t := ts[|ts| - 1];
      assert t in ts && IsLiteral(n, t.lit1) && IsLiteral(n, t.lit2);
      AddTerm(l, n, QuadraticNetwork(l, n, base, ts[..|ts| - 1]), t.lit1, t.lit2, t.coeff)
  }

  function NetworkMap(l: Layout, p: Posiform): map<Key, int>
    requires p.Positive()
  {
    QuadraticNetwork(l, p.numVars, LinearNetwork(l, p.numVars, p.linear), p.quadratic)
  }

  method PosiformToImplicationNetwork1(p: Posiform) returns (a: Csr<int>)
    requires p.Positive()
    ensures a.Valid() && a.numRows == a.numCols == 2 * p.numVars + 2
    ensures a.View() == NetworkMap(SourceFirst, p)
  {
    var numVertices := 2 * p.numVars + 2;
    var m := LinearArcs1(p.numVars, p.linear);
    m := QuadraticArcs1(p.numVars, m, p.quadratic);
    NetworkKeys(SourceFirst, p);
    assert forall key: Key | key in m :: ArcKey(SourceFirst, p.numVars, key);
    var r := FromMap(numVertices, numVertices, m);
    a := r.value;
  }

  method LinearArcs1(n: nat, linear: seq<LinearTerm>) returns (m: map<Key, int>)
    requires forall t | t in linear :: IsLiteral(n, t.lit)
    ensures m == LinearNetwork(SourceFirst, n, linear)
  {
    var source, sink := 0, n + 1;
    m := map[];
    for i := 0 to |linear|
      invariant m == LinearNetwork(SourceFirst, n, linear[..i])
    {
      assert linear[i] in linear && linear[..i + 1][..i] == linear[..i];
      var v, capacity := linear[i].lit, linear[i].coeff;
      if v > 0 {
        m := m[(source, v + n + 1) := capacity][(v, sink) := capacity];
      } else {
        v := Abs(v);
        m := m[(source, v) := capacity][(v + n + 1, sink) := capacity];
      }
    }
    assert linear[..|linear|] == linear;
  }

  method QuadraticArcs1(n: nat, base: map<Key, int>, quadratic: seq<QuadraticTerm>) returns (m: map<Key, int>)
    requires forall t | t in quadratic ::
               IsLiteral(n, t.lit1) && IsLiteral(n, t.lit2) && (t.lit1 > 0 || t.lit2 > 0)
    ensures m == QuadraticNetwork(SourceFirst, n, base, quadratic)
  {
    m := base;
    for i := 0 to |quadratic|
      invariant m == QuadraticNetwork(SourceFirst, n, base, quadratic[..i])
    {
      assert quadratic[i] in quadratic && quadratic[..i + 1][..i] == quadratic[..i];
      var v1, v2, capacity := quadratic[i].lit1, quadratic[i].lit2, quadratic[i].coeff;
      if v1 < 0 {
        v1 := Abs(v1);
        m := m[(v1 + n + 1, v2 + n + 1) := capacity][(v2, v1) := capacity];
      } else if v2 < 0 {
        v2 := Abs(v2);
        m := m[(v1, v2) := capacity][(v2 + n + 1, v1 + n + 1) := capacity];
      } else {
        m := m[(v1, v2 + n + 1) := capacity][(v2, v1 + n + 1) := capacity];
      }
    }
    assert quadratic[..|quadratic|] == quadratic;
  }

  method PosiformToImplicationNetwork2(p: Posiform) returns (a: Csr<int>)
    requires p.Positive()
    ensures a.Valid() && a.numRows == a.numCols == 2 * p.numVars + 2
    ensures a.View() == NetworkMap(SourceMiddle, p)
  {
    var numVertices := 2 * p.numVars + 2;
    var m := LinearArcs2(p.numVars, p.linear);
    m := QuadraticArcs2(p.numVars, m, p.quadratic);
    NetworkKeys(SourceMiddle, p);
    assert forall key: Key | key in m :: ArcKey(SourceMiddle, p.numVars, key);
    var r := FromMap(numVertices, numVertices, m);
    a := r.value;
  }

  method LinearArcs2(n: nat, linear: seq<LinearTerm>) returns (m: map<Key, int>)
    requires forall t | t in linear :: IsLiteral(n, t.lit)
    ensures m == LinearNetwork(SourceMiddle, n, linear)
  {
    var source, sink := n, 2 * n + 1;
    m := map[];
    for i := 0 to |linear|
      invariant m == LinearNetwork(SourceMiddle, n, linear[..i])
    {
      assert linear[i] in linear && linear[..i + 1][..i] == linear[..i];
      var v, capacity := linear[i].lit, linear[i].coeff;
      if v > 0 {
        m := m[(source, v + n) := capacity][(v - 1, sink) := capacity];
      } else {
        v := Abs(v);
        m := m[(source, v - 1) := capacity][(v + n, sink) := capacity];
      }
    }
    assert linear[..|linear|] == linear;
  }

  method QuadraticArcs2(n: nat, base: map<Key, int>, quadratic: seq<QuadraticTerm>) returns (m: map<Key, int>)
    requires forall t | t in quadratic ::
               IsLiteral(n, t.lit1) && IsLiteral(n, t.lit2) && (t.lit1 > 0 || t.lit2 > 0)
    ensures m == QuadraticNetwork(SourceMiddle, n, base, quadratic)
  {
    m := base;
    for i := 0 to |quadratic|
      invariant m == QuadraticNetwork(SourceMiddle, n, base, quadratic[..i])
    {
      assert quadratic[i] in quadratic && quadratic[..i + 1][..i] == quadratic[..i];
      var v1, v2, capacity := quadratic[i].lit1, quadratic[i].lit2, quadratic[i].coeff;
      if v1 < 0 {
        v1 := Abs(v1);
        m := m[(v1 + n, v2 + n) := capacity][(v2 - 1, v1 - 1) := capacity];
      } else if v2 < 0 {
        v2 := Abs(v2);
        m := m[(v1 - 1, v2 - 1) := capacity][(v2 + n, v1 + n) := capacity];
      } else {
        m := m[(v1 - 1, v2 + n) := capacity][(v2 - 1, v1 + n) := capacity];
      }
    }
    assert quadratic[..|quadratic|] == quadratic;
  }

  // ---------------------------------------------------------------- where the arcs come from

  /** The unordered pair of variables an arc runs between. */
  function VarPair(l: Layout, n: nat, key: Key): (nat, nat) {
    var a, b := VarOf(l, n, key.0), VarOf(l, n, key.1);
    if a < b then (a, b) else (b, a)
  }

  ghost predicate ArcKey(l: Layout, n: nat, key: Key) {
    && key.0 < 2 * n + 2 && key.1 < 2 * n + 2
    && key.1 != Source(l, n) && key.0 != Sink(l, n)
    && VarOf(l, n, key.0) != VarOf(l, n, key.1)
  }

  lemma TermKeys(l: Layout, n: nat, m: map<Key, int>, a: int, b: int, cap: int)
    requires Abs(a) <= n && Abs(b) <= n && Abs(a) != Abs(b)
    ensures var t := AddTerm(l, n, m, a, b, cap);
            forall key: Key | key in t && key !in m ::
              ArcKey(l, n, key) && VarPair(l, n, key) == (if Abs(a) < Abs(b) then (Abs(a), Abs(b)) else (Abs(b), Abs(a)))
  {
    TermKey(l, n, a, b);
    TermKey(l, n, b, a);
  }

  lemma TermKey(l: Layout, n: nat, a: int, b: int)
    requires Abs(a) <= n && Abs(b) <= n && Abs(a) != Abs(b)
    ensures var key := (Vertex(l, n, a), Bar(n, Vertex(l, n, b)));
            ArcKey(l, n, key) && VarPair(l, n, key) == if Abs(a) < Abs(b) then (Abs(a), Abs(b)) else (Abs(b), Abs(a))
  {
    VertexFacts(l, n, a);
    VertexFacts(l, n, b);
  }

  lemma {:induction false} LinearKeys(l: Layout, n: nat, ts: seq<LinearTerm>)
    requires forall t | t in ts :: IsLiteral(n, t.lit)
    ensures forall key: Key | key in LinearNetwork(l, n, ts) ::
              ArcKey(l, n, key) && exists i :: 0 <= i < |ts| && VarPair(l, n, key) == (0, Abs(ts[i].lit))
  {
    if ts != [] {
      var k := |ts| - 1;
      assert ts[k] in ts;
      LinearKeys(l, n, ts[..k]);
      TermKeys(l, n, LinearNetwork(l, n, ts[..k]), 0, ts[k].lit, ts[k].coeff);
      forall key: Key | key in LinearNetwork(l, n, ts)
        ensures ArcKey(l, n, key) && exists i :: 0 <= i < |ts| && VarPair(l, n, key) == (0, Abs(ts[i].lit))
      {
        if key in LinearNetwork(l, n, ts[..k]) {
          var i :| 0 <= i < k && VarPair(l, n, key) == (0, Abs(ts[..k][i].lit));
          assert ts[..k][i] == ts[i];
        } else {
          assert VarPair(l, n, key) == (0, Abs(ts[k].lit));
        }
      }
    }
  }

  lemma LinearPairs(l: Layout, n: nat, ts: seq<LinearTerm>)
    requires forall t | t in ts :: IsLiteral(n, t.lit)
    ensures forall key: Key | key in LinearNetwork(l, n, ts) :: VarPair(l, n, key).0 == 0
  {
    LinearKeys(l, n, ts);
  }

  ghost predicate VariablesDiffer(n: nat, ts: seq<QuadraticTerm>) {
    forall t | t in ts :: IsLiteral(n, t.lit1) && IsLiteral(n, t.lit2) && Abs(t.lit1) != Abs(t.lit2)
  }

  lemma {:induction false} QuadraticKeys(l: Layout, n: nat, base: map<Key, int>, ts: seq<QuadraticTerm>)
    requires VariablesDiffer(n, ts)
    ensures forall key: Key | key in QuadraticNetwork(l, n, base, ts) ::
              key in base ||
              (ArcKey(l, n, key) && exists i :: 0 <= i < |ts| && VarPair(l, n, key) == Posiform.Pair(ts[i]))
  {
    if ts != [] {
      var k := |ts| - 1;
      assert ts[k] in ts;
      QuadraticKeys(l, n, base, ts[..k]);
      TermKeys(l, n, QuadraticNetwork(l, n, base, ts[..k]), ts[k].lit1, ts[k].lit2, ts[k].coeff);
      forall key: Key | key in QuadraticNetwork(l, n, base, ts) && key !in base
        ensures ArcKey(l, n, key) && exists i :: 0 <= i < |ts| && VarPair(l, n, key) == Posiform.Pair(ts[i])
      {
        if key in QuadraticNetwork(l, n, base, ts[..k]) {
          var i :| 0 <= i < k && VarPair(l, n, key) == Posiform.Pair(ts[..k][i]);
          assert ts[..k][i] == ts[i];
        } else {
          assert VarPair(l, n, key) == Posiform.Pair(ts[k]);
        }
      }
    }
  }

  /** Every arc joins two different variables (or a variable and a terminal), none enters the source or leaves the sink. */
  lemma NetworkKeys(l: Layout, p: Posiform)
    requires p.Positive()
    ensures forall key: Key | key in NetworkMap(l, p) :: ArcKey(l, p.numVars, key)
  {
    LinearKeys(l, p.numVars, p.linear);
    QuadraticKeys(l, p.numVars, LinearNetwork(l, p.numVars, p.linear), p.quadratic);
  }

  /** All arcs between one pair of variables come from one term, so no arc has a reverse arc and none is overwritten. */
  lemma TermIsFresh(l: Layout, n: nat, m: map<Key, int>, a: int, b: int, cap: int)
    requires Abs(a) <= n && Abs(b) <= n && Abs(a) != Abs(b)
    requires forall key: Key | key in m :: VarPair(l, n, key) != if Abs(a) < Abs(b) then (Abs(a), Abs(b)) else (Abs(b), Abs(a))
    requires NoReverse(m)
    ensures var k1, k2 := (Vertex(l, n, a), Bar(n, Vertex(l, n, b))), (Vertex(l, n, b), Bar(n, Vertex(l, n, a)));
            k1 !in m && k2 !in m && k1 != k2 && NoReverse(AddTerm(l, n, m, a, b, cap))
  {
    VertexFacts(l, n, a);
    VertexFacts(l, n, b);
    var va, vb := Vertex(l, n, a), Vertex(l, n, b);
    var k1, k2 := (va, Bar(n, vb)), (vb, Bar(n, va));
    assert VarPair(l, n, k1) == VarPair(l, n, k2) == VarPair(l, n, (k1.1, k1.0)) == VarPair(l, n, (k2.1, k2.0));
  }

  ghost predicate NoReverse(m: map<Key, int>) {
    forall key: Key | key in m :: (key.1, key.0) !in m
  }

  lemma {:induction false} LinearNetworkFresh(l: Layout, n: nat, ts: seq<LinearTerm>)
    requires forall t | t in ts :: IsLiteral(n, t.lit)
    requires forall i, j | 0 <= i < j < |ts| :: Abs(ts[i].lit) != Abs(ts[j].lit)
    ensures NoReverse(LinearNetwork(l, n, ts))
    ensures ts != [] ==> LinearFresh(l, n, LinearNetwork(l, n, ts[..|ts| - 1]), ts[|ts| - 1])
  {
    if ts != [] {
      var k := |ts| - 1;
      assert ts[k] in ts;
      LinearNetworkFresh(l, n, ts[..k]);
      LinearKeys(l, n, ts[..k]);
      var m := LinearNetwork(l, n, ts[..k]);
      forall key: Key | key in m
        ensures VarPair(l, n, key) != (0, Abs(ts[k].lit))
      {
        var i :| 0 <= i < k && VarPair(l, n, key) == (0, Abs(ts[..k][i].lit));
        assert ts[..k][i] == ts[i];
      }
      TermIsFresh(l, n, m, 0, ts[k].lit, ts[k].coeff);
    }
  }

  ghost predicate LinearFresh(l: Layout, n: nat, m: map<Key, int>, t: LinearTerm)
    requires IsLiteral(n, t.lit)
  {
    PairFresh(l, n, m, 0, t.lit)
  }

  ghost predicate PairFresh(l: Layout, n: nat, m: map<Key, int>, a: int, b: int)
    requires Abs(a) <= n && Abs(b) <= n
  {
    var k1, k2 := (Vertex(l, n, a), Bar(n, Vertex(l, n, b))), (Vertex(l, n, b), Bar(n, Vertex(l, n, a)));
    k1 !in m && k2 !in m && k1 != k2
  }

  lemma {:induction false} QuadraticNetworkFresh(l: Layout, n: nat, base: map<Key, int>, ts: seq<QuadraticTerm>)
    requires VariablesDiffer(n, ts)
    requires forall i, j | 0 <= i < j < |ts| :: Posiform.Pair(ts[i]) != Posiform.Pair(ts[j])
    requires NoReverse(base) && forall key: Key | key in base :: VarPair(l, n, key).0 == 0
    ensures NoReverse(QuadraticNetwork(l, n, base, ts))
    ensures ts != [] ==> PairFresh(l, n, QuadraticNetwork(l, n, base, ts[..|ts| - 1]), ts[|ts| - 1].lit1, ts[|ts| - 1].lit2)
  {
    if ts != [] {
      var k := |ts| - 1;
      assert ts[k] in ts;
      QuadraticNetworkFresh(l, n, base, ts[..k]);
      QuadraticKeys(l, n, base, ts[..k]);
      var m := QuadraticNetwork(l, n, base, ts[..k]);
      forall key: Key | key in m
        ensures VarPair(l, n, key) != Posiform.Pair(ts[k])
      {
        if key !in base {
          var i :| 0 <= i < k && VarPair(l, n, key) == Posiform.Pair(ts[..k][i]);
          assert ts[..k][i] == ts[i];
        }
      }
      TermIsFresh(l, n, m, ts[k].lit1, ts[k].lit2, ts[k].coeff);
    }
  }

  /** Every arc has its mirror image, between the negations and in the other direction, with the same capacity. */
  ghost predicate SkewSymmetric(n: nat, m: map<Key, int>) {
    forall key: Key | key in m ::
      key.0 < 2 * n + 2 && key.1 < 2 * n + 2 && MirrorKey(n, key) in m && m[MirrorKey(n, key)] == m[key]
  }

  function MirrorKey(n: nat, key: Key): Key {
    (Bar(n, key.1), Bar(n, key.0))
  }

  lemma TermSkew(l: Layout, n: nat, m: map<Key, int>, a: int, b: int, cap: int)
    requires Abs(a) <= n && Abs(b) <= n && SkewSymmetric(n, m)
    ensures SkewSymmetric(n, AddTerm(l, n, m, a, b, cap))
  {
    VertexFacts(l, n, a);
    VertexFacts(l, n, b);
    PairSkew(n, m, (Vertex(l, n, a), Bar(n, Vertex(l, n, b))), (Vertex(l, n, b), Bar(n, Vertex(l, n, a))), cap);
  }

  lemma PairSkew(n: nat, m: map<Key, int>, k1: Key, k2: Key, cap: int)
    requires SkewSymmetric(n, m) && MirrorKey(n, k1) == k2
    requires k1.0 < 2 * n + 2 && k1.1 < 2 * n + 2
    ensures SkewSymmetric(n, m[k1 := cap][k2 := cap])
  {
    MirrorTwice(n, k1);
    var after := m[k1 := cap][k2 := cap];
    forall key: Key | key in after
      ensures key.0 < 2 * n + 2 && key.1 < 2 * n + 2 && MirrorKey(n, key) in after && after[MirrorKey(n, key)] == after[key]
    {
      if key != k1 && key != k2 {
        MirrorTwice(n, key);
      }
    }
  }

  lemma MirrorTwice(n: nat, key: Key)
    requires key.0 < 2 * n + 2 && key.1 < 2 * n + 2
    ensures MirrorKey(n, MirrorKey(n, key)) == key
    ensures MirrorKey(n, key).0 < 2 * n + 2 && MirrorKey(n, key).1 < 2 * n + 2
  {
  }

  lemma {:induction false} LinearSkew(l: Layout, n: nat, ts: seq<LinearTerm>)
    requires forall t | t in ts :: IsLiteral(n, t.lit)
    ensures SkewSymmetric(n, LinearNetwork(l, n, ts))
  {
    if ts != [] {
      var t := ts[|ts| - 1];
      assert t in ts;
      LinearSkew(l, n, ts[..|ts| - 1]);
      TermSkew(l, n, LinearNetwork(l, n, ts[..|ts| - 1]), 0, t.lit, t.coeff);
    }
  }

  lemma {:induction false} QuadraticSkew(l: Layout, n: nat, base: map<Key, int>, ts: seq<QuadraticTerm>)
    requires VariablesDiffer(n, ts) && SkewSymmetric(n, base)
    ensures SkewSymmetric(n, QuadraticNetwork(l, n, base, ts))
  {
    if ts != [] {
      var t := ts[|ts| - 1];
      assert t in ts;
      QuadraticSkew(l, n, base, ts[..|ts| - 1]);
      TermSkew(l, n, QuadraticNetwork(l, n, base, ts[..|ts| - 1]), t.lit1, t.lit2, t.coeff);
    }
  }

  /** In both numberings the network is skew-symmetric. */
  lemma NetworkSkew(l: Layout, p: Posiform)
    requires p.Positive()
    ensures SkewSymmetric(p.numVars, NetworkMap(l, p))
  {
    LinearSkew(l, p.numVars, p.linear);
    QuadraticSkew(l, p.numVars, LinearNetwork(l, p.numVars, p.linear), p.quadratic);
  }

  // ---------------------------------------------------------------- capacities of cuts

  ghost function ArcWeight(m: map<Key, int>, w: set<nat>): Key -> real {
    (key: Key) => if key in m && key.0 in w && key.1 !in w then m[key] as real else 0.0
  }

  ghost function MapCut(m: map<Key, int>, w: set<nat>): real {
    SetSum(m.Keys, ArcWeight(m, w))
  }

  lemma MapCutInsert(m: map<Key, int>, key: Key, cap: int, w: set<nat>)
    requires key !in m
    ensures MapCut(m[key := cap], w) == MapCut(m, w) + if key.0 in w && key.1 !in w then cap as real else 0.0
  {
    var m' := m[key := cap];
    assert m'.Keys == m.Keys + {key};
    SetSumInsert(m.Keys, key, ArcWeight(m', w));
    SetSumSame(m.Keys, ArcWeight(m', w), ArcWeight(m, w));
  }

  lemma AddTermCut(l: Layout, n: nat, m: map<Key, int>, a: int, b: int, cap: int, w: set<nat>)
    requires Abs(a) <= n && Abs(b) <= n && PairFresh(l, n, m, a, b)
    ensures MapCut(AddTerm(l, n, m, a, b, cap), w) == MapCut(m, w)
              + (if Vertex(l, n, a) in w && Bar(n, Vertex(l, n, b)) !in w then cap as real else 0.0)
              + (if Vertex(l, n, b) in w && Bar(n, Vertex(l, n, a)) !in w then cap as real else 0.0)
  {
    var k1, k2 := (Vertex(l, n, a), Bar(n, Vertex(l, n, b))), (Vertex(l, n, b), Bar(n, Vertex(l, n, a)));
    MapCutInsert(m, k1, cap, w);
    MapCutInsert(m[k1 := cap], k2, cap, w);
  }

  lemma CodesOf(l: Layout, n: nat, w: set<nat>, c: int)
    requires Abs(c) <= n && Separates(Source(l, n), Sink(l, n), w)
    ensures c in Codes(l, n, w) <==> Vertex(l, n, c) in w
    ensures c != 0 ==> (-c in Codes(l, n, w) <==> Bar(n, Vertex(l, n, c)) in w)
    ensures c == 0 ==> c in Codes(l, n, w) && Bar(n, Vertex(l, n, c)) !in w
  {
    VertexFacts(l, n, c);
  }

  ghost function TermArcs(a: int, b: int, s: set<int>): int {
    if a == 0 then RoofDuality.LinearArcs(b, s) else RoofDuality.ArcPair(a, b, s)
  }

  lemma TermCut(l: Layout, n: nat, m: map<Key, int>, a: int, b: int, cap: int, w: set<nat>)
    requires Abs(a) <= n && Abs(b) <= n && b != 0 && PairFresh(l, n, m, a, b)
    requires Separates(Source(l, n), Sink(l, n), w)
    ensures MapCut(AddTerm(l, n, m, a, b, cap), w) == MapCut(m, w) + (cap * TermArcs(a, b, Codes(l, n, w))) as real
  {
    AddTermCut(l, n, m, a, b, cap, w);
    CodesOf(l, n, w, a);
    CodesOf(l, n, w, b);
    var arcs := TermArcs(a, b, Codes(l, n, w));
    assert arcs == (if Vertex(l, n, a) in w && Bar(n, Vertex(l, n, b)) !in w then 1 else 0)
                 + (if Vertex(l, n, b) in w && Bar(n, Vertex(l, n, a)) !in w then 1 else 0);
    assert arcs == 0 || arcs == 1 || arcs == 2;
  }

  lemma {:induction false} LinearNetworkCut(l: Layout, n: nat, ts: seq<LinearTerm>, w: set<nat>)
    requires forall t | t in ts :: IsLiteral(n, t.lit)
    requires forall i, j | 0 <= i < j < |ts| :: Abs(ts[i].lit) != Abs(ts[j].lit)
    requires Separates(Source(l, n), Sink(l, n), w)
    ensures MapCut(LinearNetwork(l, n, ts), w) == RoofDuality.LinearCut(ts, Codes(l, n, w)) as real
  {
    if ts != [] {
      var k := |ts| - 1;
      assert ts[k] in ts;
      LinearNetworkCut(l, n, ts[..k], w);
      LinearNetworkFresh(l, n, ts);
      TermCut(l, n, LinearNetwork(l, n, ts[..k]), 0, ts[k].lit, ts[k].coeff, w);
    }
  }

  lemma {:induction false} QuadraticNetworkCut(l: Layout, n: nat, base: map<Key, int>, ts: seq<QuadraticTerm>, w: set<nat>)
    requires VariablesDiffer(n, ts)
    requires forall i, j | 0 <= i < j < |ts| :: Posiform.Pair(ts[i]) != Posiform.Pair(ts[j])
    requires NoReverse(base) && forall key: Key | key in base :: VarPair(l, n, key).0 == 0
    requires Separates(Source(l, n), Sink(l, n), w)
    ensures MapCut(QuadraticNetwork(l, n, base, ts), w) == MapCut(base, w) + RoofDuality.QuadraticCut(ts, Codes(l, n, w)) as real
  {
    if ts != [] {
      var k := |ts| - 1;
      assert ts[k] in ts;
      QuadraticNetworkCut(l, n, base, ts[..k], w);
      QuadraticNetworkFresh(l, n, base, ts);
      TermCut(l, n, QuadraticNetwork(l, n, base, ts[..k]), ts[k].lit1, ts[k].lit2, ts[k].coeff, w);
    }
  }

  lemma NetworkMapCut(l: Layout, p: Posiform, w: set<nat>)
    requires p.Positive() && p.Merged() && Separates(Source(l, p.numVars), Sink(l, p.numVars), w)
    ensures MapCut(NetworkMap(l, p), w) == RoofDuality.Cut(p, Codes(l, p.numVars, w)) as real
    ensures NoReverse(NetworkMap(l, p))
  {
    var n := p.numVars;
    LinearNetworkFresh(l, n, p.linear);
    LinearPairs(l, n, p.linear);
    LinearNetworkCut(l, n, p.linear, w);
    QuadraticNetworkFresh(l, n, LinearNetwork(l, n, p.linear), p.quadratic);
    QuadraticNetworkCut(l, n, LinearNetwork(l, n, p.linear), p.quadratic, w);
  }

  /** The stored entries of a network matrix, read as arcs. */
  ghost function ArcsTo(a: Csr<int>, k: nat): (arcs: seq<Arc>)
    requires a.Valid() && k <= |a.values|
    ensures |arcs| == k
    ensures forall i: nat | i < k :: arcs[i] == Arc(a.KeyAt(i).0, a.KeyAt(i).1, a.values[i])
  {
    seq(k, i requires 0 <= i < k => Arc(a.KeyAt(i).0, a.KeyAt(i).1, a.values[i]))
  }

  ghost function Arcs(a: Csr<int>): (arcs: seq<Arc>)
    requires a.Valid()
  {
    ArcsTo(a, |a.values|)
  }

  lemma CutStep(a: Csr<int>, k: nat, w: set<nat>)
    requires a.Valid() && k < |a.values|
    ensures CutCapacity(ArcsTo(a, k + 1), w) ==
            CutCapacity(ArcsTo(a, k), w) + if a.KeyAt(k).0 in w && a.KeyAt(k).1 !in w then a.values[k] else 0
  {
    var longer := ArcsTo(a, k + 1);
    assert longer[..k] == ArcsTo(a, k);
    assert longer[k] == Arc(a.KeyAt(k).0, a.KeyAt(k).1, a.values[k]);
  }

  lemma MapCutStep(a: Csr<int>, k: nat, w: set<nat>)
    requires a.Valid() && k < |a.values|
    ensures MapCut(a.ViewTo(k + 1), w) ==
            MapCut(a.ViewTo(k), w) + if a.KeyAt(k).0 in w && a.KeyAt(k).1 !in w then a.values[k] as real else 0.0
  {
    a.KeyFresh(k);
    MapCutInsert(a.ViewTo(k), a.KeyAt(k), a.values[k], w);
  }

  lemma {:induction false} MatrixCut(a: Csr<int>, k: nat, w: set<nat>)
    requires a.Valid() && k <= |a.values|
    ensures CutCapacity(ArcsTo(a, k), w) as real == MapCut(a.ViewTo(k), w)
  {
    if k == 0 {
      assert a.ViewTo(0).Keys == {};
    } else {
      MatrixCut(a, k - 1, w);
      NextCut(a, k - 1, w);
    }
  }

  lemma NextCut(a: Csr<int>, k: nat, w: set<nat>)
    requires a.Valid() && k < |a.values| && CutCapacity(ArcsTo(a, k), w) as real == MapCut(a.ViewTo(k), w)
    ensures CutCapacity(ArcsTo(a, k + 1), w) as real == MapCut(a.ViewTo(k + 1), w)
  {
    CutStep(a, k, w);
    MapCutStep(a, k, w);
  }

  /** Both numberings give the same cuts: the capacity out of a separating vertex set is the posiform cut of its literals. */
  lemma NetworkCut(l: Layout, p: Posiform, a: Csr<int>, w: set<nat>)
    requires p.Positive() && p.Merged() && a.Valid() && a.View() == NetworkMap(l, p)
    requires Separates(Source(l, p.numVars), Sink(l, p.numVars), w)
    ensures CutCapacity(Arcs(a), w) == RoofDuality.Cut(p, Codes(l, p.numVars, w))
  {
    MatrixCut(a, |a.values|, w);
    NetworkMapCut(l, p, w);
  }
}
