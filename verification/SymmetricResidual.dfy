/** Method 1 adds the mirror image of every residual arc, so that the literals of one component determine
those of the complementary component. */
module SymmetricResiduals {
  import opened CompressedMatrices
  import opened ImplicationNetwork
  import opened Graphs
  import opened Residuals

  /** Stored entry `k` of `r` puts weight on position (u, v), directly or as mirror image. */
  ghost predicate Contributes(r: Csr<int>, n: nat, k: nat, u: nat, v: nat)
    requires r.Valid() && k < |r.values|
  {
    u != v && r.values[k] != 0 && (r.KeyAt(k) == (u, v) || r.KeyAt(k) == (Bar(n, v), Bar(n, u)))
  }

  ghost predicate HasContribution(r: Csr<int>, n: nat, j: nat, u: nat, v: nat)
    requires r.Valid() && j <= |r.values|
  {
    exists k: nat :: k < j && Contributes(r, n, k, u, v)
  }

  ghost predicate SymmetricSoFar(m: map<Key, int>, r: Csr<int>, n: nat, j: nat)
    requires r.Valid() && j <= |r.values|
  {
    && (forall key: Key | key in m :: key.0 < 2 * n + 2 && key.1 < 2 * n + 2 && m[key] >= 0)
    && (forall u: nat, v: nat | u < 2 * n + 2 && v < 2 * n + 2 ::
          Value(m, (u, v)) != 0 <==> HasContribution(r, n, j, u, v))
  }

  /** What method 1 searches: a residual arc or its mirror image, except into the source and out of the sink. */
  ghost predicate SymmetricResidual(g: Csr<int>, r: Csr<int>, n: nat) {
    && g.Valid() && r.Valid() && g.numRows == g.numCols == r.numRows == r.numCols == 2 * n + 2
    && (forall k | 0 <= k < |g.values| :: g.values[k] > 0)
    && (forall u: nat, v: nat | u < 2 * n + 2 && v < 2 * n + 2 ::
          IsArc(g, u, v) <==> u != v && u != n + 1 && v != 0 && (IsArc(r, u, v) || IsArc(r, Bar(n, v), Bar(n, u))))
  }

  method MakeResidualSymmetric(r: Csr<int>, n: nat) returns (g: Csr<int>)
    requires r.Valid() && r.numRows == r.numCols == 2 * n + 2
    requires forall k | 0 <= k < |r.values| :: r.values[k] >= 0
    ensures SymmetricResidual(g, r, n)
  {
    var msym: map<Key, int> := map[];
    for i := 0 to r.numRows
      invariant r.rowOffsets[i] <= |r.values|
      invariant SymmetricSoFar(msym, r, n, r.rowOffsets[i])
    {
      var start, end := r.rowOffsets[i], r.rowOffsets[i + 1];
      for j := start to end
        invariant end <= |r.values|
        invariant SymmetricSoFar(msym, r, n, j)
      {
        r.RowIs(i, j);
        msym := AddBoth(msym, r, n, j, i, r.colIndices[j], r.values[j]);
      }
    }
    var cleared := RemoveZeros(msym, n);
    var m := FromMap(2 * n + 2, 2 * n + 2, cleared);
    g := m.value;
    forall k: nat | k < |g.values|
      ensures g.values[k] > 0
    {
      g.ViewAt(k);
    }
    forall u: nat, v: nat | u < 2 * n + 2 && v < 2 * n + 2
      ensures IsArc(g, u, v) <==> u != v && u != n + 1 && v != 0 && (IsArc(r, u, v) || IsArc(r, Bar(n, v), Bar(n, u)))
    {
      ContributionIsArc(r, n, u, v);
    }
  }

  method AddBoth(m: map<Key, int>, ghost rm: Csr<int>, n: nat, ghost j: nat, r: nat, c: nat, value: int)
    returns (after: map<Key, int>)
    requires rm.Valid() && j < |rm.values| && rm.KeyAt(j) == (r, c) && rm.values[j] == value >= 0
    requires r < 2 * n + 2 && c < 2 * n + 2 && SymmetricSoFar(m, rm, n, j)
    ensures SymmetricSoFar(after, rm, n, j + 1)
  {
    after := m;
    if r != c {
      after := Accumulate(after, (r, c), value);
      var compR := if r <= n then r + (n + 1) else r - (n + 1);
      var compC := if c <= n then c + (n + 1) else c - (n + 1);
      after := Accumulate(after, (compC, compR), value);
    }
    SymmetricExtends(m, after, rm, n, j, r, c, value);
  }

  /** `m[key] += value` on a `std::map`. */
  function Accumulate(m: map<Key, int>, key: Key, value: int): (after: map<Key, int>)
    ensures after.Keys == m.Keys + {key}
    ensures forall k: Key :: Value(after, k) == Value(m, k) + if k == key then value else 0
  {
    m[key := Value(m, key) + value]
  }

  lemma SymmetricExtends(m: map<Key, int>, after: map<Key, int>, rm: Csr<int>, n: nat, j: nat, r: nat, c: nat, value: int)
    requires rm.Valid() && j < |rm.values| && rm.KeyAt(j) == (r, c) && rm.values[j] == value >= 0
    requires r < 2 * n + 2 && c < 2 * n + 2 && SymmetricSoFar(m, rm, n, j)
    requires after.Keys == m.Keys + if r == c then {} else {(r, c), (Bar(n, c), Bar(n, r))}
    requires forall k: Key :: Value(after, k) == Value(m, k)
               + (if r != c && k == (r, c) then value else 0) + (if r != c && k == (Bar(n, c), Bar(n, r)) then value else 0)
    ensures SymmetricSoFar(after, rm, n, j + 1)
  {
    forall key: Key | key in after
      ensures key.0 < 2 * n + 2 && key.1 < 2 * n + 2 && after[key] >= 0
    {
      assert Value(after, key) == after[key];
    }
    forall u: nat, v: nat | u < 2 * n + 2 && v < 2 * n + 2
      ensures Value(after, (u, v)) != 0 <==> HasContribution(rm, n, j + 1, u, v)
    {
      assert Bar(n, Bar(n, u)) == u && Bar(n, Bar(n, v)) == v;
      assert Value(m, (u, v)) >= 0;
      assert (u, v) == (Bar(n, c), Bar(n, r)) <==> (r, c) == (Bar(n, v), Bar(n, u));
      assert HasContribution(rm, n, j + 1, u, v) <==> HasContribution(rm, n, j, u, v) || Contributes(rm, n, j, u, v);
    }
  }

  method RemoveZeros(m: map<Key, int>, n: nat) returns (cleared: map<Key, int>)
    ensures forall key: Key :: key in cleared <==> key in m && m[key] != 0 && key.0 != n + 1 && key.1 != 0
    ensures forall key: Key | key in cleared :: cleared[key] == m[key]
  {
    cleared := map[];
    var rest := m.Keys;
    while rest != {}
      invariant rest <= m.Keys
      invariant forall key: Key :: key in cleared <==>
                  key in m && key !in rest && m[key] != 0 && key.0 != n + 1 && key.1 != 0
      invariant forall key: Key | key in cleared :: cleared[key] == m[key]
    {
      var key: Key :| key in rest;
      if m[key] != 0 && key.0 != n + 1 && key.1 != 0 {
        cleared := InsertNew(cleared, key, m[key]);
      }
      rest := rest - {key};
    }
  }

  lemma ContributionIsArc(r: Csr<int>, n: nat, u: nat, v: nat)
    requires r.Valid() && r.numRows == r.numCols == 2 * n + 2 && u < 2 * n + 2 && v < 2 * n + 2
    ensures HasContribution(r, n, |r.values|, u, v) <==> u != v && (IsArc(r, u, v) || IsArc(r, Bar(n, v), Bar(n, u)))
  {
    if HasContribution(r, n, |r.values|, u, v) {
      var k: nat :| k < |r.values| && Contributes(r, n, k, u, v);
      r.ViewAt(k);
    }
    if u != v && IsArc(r, u, v) {
      assert Contributes(r, n, r.IndexOf((u, v)), u, v);
    }
    if u != v && IsArc(r, Bar(n, v), Bar(n, u)) {
      assert Contributes(r, n, r.IndexOf((Bar(n, v), Bar(n, u))), u, v);
    }
  }

  /** The symmetrised graph is skew-symmetric. */
  lemma MirrorArc(g: Csr<int>, r: Csr<int>, n: nat, u: nat, v: nat)
    requires SymmetricResidual(g, r, n) && u < 2 * n + 2 && v < 2 * n + 2 && IsArc(g, u, v)
    ensures IsArc(g, Bar(n, v), Bar(n, u))
  {
    assert Bar(n, Bar(n, u)) == u && Bar(n, Bar(n, v)) == v;
    assert Bar(n, v) < 2 * n + 2 && Bar(n, u) < 2 * n + 2;
  }

  ghost function MirrorSet(n: nat, c: set<nat>): (m: set<nat>)
    ensures forall v: nat :: v in m <==> v < 2 * n + 2 && Bar(n, v) !in c
  {
    set v: nat | v < 2 * n + 2 && Bar(n, v) !in c
  }

  lemma ArcInRange(g: Csr<int>, u: nat, v: nat)
    requires g.Valid() && IsArc(g, u, v)
    ensures u < g.numRows && v < g.numCols
  {
    var k := g.IndexOf((u, v));
  }

  lemma MirrorClosed(g: Csr<int>, r: Csr<int>, n: nat, c: set<nat>)
    requires SymmetricResidual(g, r, n) && Closed(g, c)
    ensures Closed(g, MirrorSet(n, c))
  {
    var m := MirrorSet(n, c);
    forall u: nat, v: nat | u in m && IsArc(g, u, v)
      ensures v in m
    {
      ArcInRange(g, u, v);
      MirrorArc(g, r, n, u, v);
      if Bar(n, v) in c {
        ClosedArc(g, c, Bar(n, v), Bar(n, u));
      }
    }
    ClosedIf(g, m);
  }

  /** A path from `u` to `v` has a mirror image from the negation of `v` to the negation of `u`. */
  lemma MirrorReaches(g: Csr<int>, r: Csr<int>, n: nat, u: nat, v: nat)
    requires SymmetricResidual(g, r, n) && u < 2 * n + 2 && v < 2 * n + 2 && Reaches(g, u, v)
    ensures Reaches(g, Bar(n, v), Bar(n, u))
  {
    forall c: set<nat> | Closed(g, c) && Bar(n, v) in c
      ensures Bar(n, u) in c
    {
      MirrorClosed(g, r, n, c);
    }
  }
}
