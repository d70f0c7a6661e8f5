/** Substituting fixed variables into a QUBO. */
module Substitution {
  import opened Arithmetic
  import opened CompressedMatrices
  import opened Sums
  import opened Queues
  import opened Fixings

  /** The bilinear form that a sparse map denotes at two 0/1 vectors, restricted to the positions `s`. */
  ghost function FormWeight(m: map<Key, real>, u: seq<bool>, v: seq<bool>): Key -> real {
    (k: Key) => if k in m && k.0 < |u| && k.1 < |v| && u[k.0] && v[k.1] then m[k] else 0.0
  }

  ghost function FormOver(s: set<Key>, m: map<Key, real>, u: seq<bool>, v: seq<bool>): real {
    SetSum(s, FormWeight(m, u, v))
  }

  ghost function Form(m: map<Key, real>, u: seq<bool>, v: seq<bool>): real {
    FormOver(m.Keys, m, u, v)
  }

  function At(m: map<Key, real>, k: Key): real {
    if k in m then m[k] else 0.0
  }

  ghost predicate Both(u: seq<bool>, v: seq<bool>, k: Key) {
    k.0 < |u| && k.1 < |v| && u[k.0] && v[k.1]
  }

  lemma FormAdd(m: map<Key, real>, k: Key, d: real, u: seq<bool>, v: seq<bool>)
    ensures Form(m[k := At(m, k) + d], u, v) == Form(m, u, v) + if Both(u, v, k) then d else 0.0
  {
    var m' := m[k := At(m, k) + d];
    var w, w' := FormWeight(m, u, v), FormWeight(m', u, v);
    var rest := m.Keys - {k};
    SetSumRemove(m'.Keys, k, w');
    assert m'.Keys - {k} == rest;
    SetSumSame(rest, w, w');
    if k in m {
      SetSumRemove(m.Keys, k, w);
    } else {
      assert m.Keys == rest;
    }
  }

  /** The value of x'Qx restricted to the first `k` stored entries. */
  ghost function EnergyTo(q: Csr<real>, x: seq<bool>, k: nat): real
    requires q.Valid() && k <= |q.values| && |x| == q.numRows == q.numCols
  {
    if k == 0 then 0.0 else
      EnergyTo(q, x, k - 1) + if Both(x, x, q.KeyAt(k - 1)) then q.values[k - 1] else 0.0
  }

  ghost function Energy(q: Csr<real>, x: seq<bool>): real
    requires q.Valid() && |x| == q.numRows == q.numCols
  {
    EnergyTo(q, x, |q.values|)
  }

  lemma {:induction false} EnergyIsForm(q: Csr<real>, x: seq<bool>, k: nat)
    requires q.Valid() && k <= |q.values| && |x| == q.numRows == q.numCols
    ensures EnergyTo(q, x, k) == Form(q.ViewTo(k), x, x)
  {
    if k == 0 {
      assert q.ViewTo(0).Keys == {};
    } else {
      EnergyIsForm(q, x, k - 1);
      EnergyStep(q, x, k - 1);
    }
  }

  lemma EnergyStep(q: Csr<real>, x: seq<bool>, k: nat)
    requires q.Valid() && k < |q.values|
    ensures Form(q.ViewTo(k + 1), x, x) == Form(q.ViewTo(k), x, x) + if Both(x, x, q.KeyAt(k)) then q.values[k] else 0.0
  {
    q.KeyFresh(k);
    FormAdd(q.ViewTo(k), q.KeyAt(k), q.values[k], x, x);
  }

  // ---------------------------------------------------------------- fixed and free variables

  /** Fixed variables are distinct variables of the problem with value 0 or 1. */
  ghost predicate IsFixing(fixed: seq<Fixing>, n: nat) {
    && (forall i | 0 <= i < |fixed| :: 1 <= fixed[i].0 <= n && (fixed[i].1 == 0 || fixed[i].1 == 1))
    && (forall i, j | 0 <= i < j < |fixed| :: fixed[i].0 != fixed[j].0)
  }

  /** The values of the listed variables. */
  ghost function Pick(x: seq<bool>, vars: seq<nat>): (u: seq<bool>)
    ensures |u| == |vars| && forall i | 0 <= i < |u| :: u[i] == (vars[i] < |x| && x[vars[i]])
  {
    seq(|vars|, i requires 0 <= i < |vars| => vars[i] < |x| && x[vars[i]])
  }

  /** `index` numbers exactly the listed variables, in list order. */
  ghost predicate Numbers(index: map<nat, nat>, vars: seq<nat>) {
    && (forall v :: v in index <==> v in vars)
    && (forall i: nat | i < |vars| :: vars[i] in index && index[vars[i]] == i)
  }

  method IndexFixed(fixed: seq<Fixing>, n: nat) returns (mI: map<nat, nat>, ghost iVars: seq<nat>)
    requires IsFixing(fixed, n)
    ensures |iVars| == |fixed| && (forall i | 0 <= i < |fixed| :: iVars[i] == fixed[i].0 - 1) && Numbers(mI, iVars)
  {
    mI, iVars := map[], [];
    for i := 0 to |fixed|
      invariant |iVars| == i && (forall j | 0 <= j < i :: iVars[j] == fixed[j].0 - 1) && Numbers(mI, iVars)
    {
      ghost var before := iVars;
      mI := mI[fixed[i].0 - 1 := i];
      iVars := iVars + [fixed[i].0 - 1];
      assert forall v :: v in iVars <==> v in before || v == fixed[i].0 - 1;
    }
  }

  method IndexFree(mI: map<nat, nat>, n: nat) returns (j: seq<nat>, mJ: map<nat, nat>)
    ensures Numbers(mJ, j) && forall v: nat :: v in j <==> v < n && v !in mI
  {
    j, mJ := [], map[];
    for i := 0 to n
      invariant Numbers(mJ, j) && forall v: nat :: v in j <==> v < i && v !in mI
    {
      if i !in mI {
        ghost var before := j;
        mJ := mJ[i := |j|];
        j := j + [i];
        assert forall v :: v in j <==> v in before || v == i;
      }
    }
  }

  /** The entries among the first `k` whose row and column are both numbered, at their numbers. */
  ghost function BlockTo(q: Csr<real>, k: nat, rows: map<nat, nat>, cols: map<nat, nat>): map<Key, real>
    requires q.Valid() && k <= |q.values|
  {
    if k == 0 then map[] else
      var (r, c) := q.KeyAt(k - 1);
      if r in rows && c in cols then BlockTo(q, k - 1, rows, cols)[(rows[r], cols[c]) := q.values[k - 1]]
      else BlockTo(q, k - 1, rows, cols)
  }

  /** What the entries of one block contribute to x'Qx. */
  ghost function BlockEnergy(q: Csr<real>, x: seq<bool>, k: nat, rows: map<nat, nat>, cols: map<nat, nat>): real
    requires q.Valid() && k <= |q.values|
  {
    if k == 0 then 0.0 else
      var (r, c) := q.KeyAt(k - 1);
      BlockEnergy(q, x, k - 1, rows, cols) + if r in rows && c in cols && Both(x, x, (r, c)) then q.values[k - 1] else 0.0
  }

  /** The four blocks of the first `k` entries. */
  ghost predicate Blocks(q: Csr<real>, mI: map<nat, nat>, mJ: map<nat, nat>, k: nat,
                         ii: map<Key, real>, jj: map<Key, real>, ij: map<Key, real>, ji: map<Key, real>)
    requires q.Valid()
  {
    && k <= |q.values| && ii == BlockTo(q, k, mI, mI) && jj == BlockTo(q, k, mJ, mJ)
    && ij == BlockTo(q, k, mI, mJ) && ji == BlockTo(q, k, mJ, mI)
  }

  /** Puts one entry into its block. */
  method PlaceEntry(q: Csr<real>, i: nat, k: nat, mI: map<nat, nat>, mJ: map<nat, nat>,
                    ii0: map<Key, real>, jj0: map<Key, real>, ij0: map<Key, real>, ji0: map<Key, real>)
    returns (ii: map<Key, real>, jj: map<Key, real>, ij: map<Key, real>, ji: map<Key, real>)
    requires q.Valid() && q.InRow(i, k) && k < |q.values| && Blocks(q, mI, mJ, k, ii0, jj0, ij0, ji0)
    ensures Blocks(q, mI, mJ, k + 1, ii, jj, ij, ji)
  {
    ii, jj, ij, ji := ii0, jj0, ij0, ji0;
    q.RowIs(i, k);
    var r, c := i, q.colIndices[k];
    assert q.KeyAt(k) == (r, c);
    if r in mI && c in mI {
      ii := ii[(mI[r], mI[c]) := q.values[k]];
    }
    if r in mJ && c in mJ {
      jj := jj[(mJ[r], mJ[c]) := q.values[k]];
    }
    if r in mI && c in mJ {
      ij := ij[(mI[r], mJ[c]) := q.values[k]];
    }
    if r in mJ && c in mI {
      ji := ji[(mJ[r], mI[c]) := q.values[k]];
    }
  }

  method SplitBlocks(q: Csr<real>, mI: map<nat, nat>, mJ: map<nat, nat>)
    returns (ii: map<Key, real>, jj: map<Key, real>, ij: map<Key, real>, ji: map<Key, real>)
    requires q.Valid()
    ensures Blocks(q, mI, mJ, |q.values|, ii, jj, ij, ji)
  {
    ii, jj, ij, ji := map[], map[], map[], map[];
    for i := 0 to q.numRows
      invariant Blocks(q, mI, mJ, q.rowOffsets[i], ii, jj, ij, ji)
    {
      var start, end := q.rowOffsets[i], q.rowOffsets[i + 1];
      assert end <= q.rowOffsets[q.numRows];
      for k := start to end
        invariant Blocks(q, mI, mJ, k, ii, jj, ij, ji)
      {
        ii, jj, ij, ji := PlaceEntry(q, i, k, mI, mJ, ii, jj, ij, ji);
      }
    }
  }

  /** Every position of a block stands for a position among the first `k` entries. */
  ghost predicate BlockKeys(m: map<Key, real>, q: Csr<real>, k: nat, rows: seq<nat>, cols: seq<nat>)
    requires q.Valid() && k <= |q.values|
  {
    forall key: Key | key in m :: key.0 < |rows| && key.1 < |cols| && (rows[key.0], cols[key.1]) in q.ViewTo(k)
  }

  ghost predicate BlockMeans(m: map<Key, real>, q: Csr<real>, x: seq<bool>, k: nat, rows: seq<nat>, cols: seq<nat>, e: real)
    requires q.Valid() && k <= |q.values|
  {
    BlockKeys(m, q, k, rows, cols) && Form(m, Pick(x, rows), Pick(x, cols)) == e
  }

  /** A block has the value of its entries. */
  lemma {:induction false} BlockMeansEnergy(q: Csr<real>, x: seq<bool>, k: nat, mR: map<nat, nat>, mC: map<nat, nat>, rows: seq<nat>, cols: seq<nat>)
    requires q.Valid() && k <= |q.values| && Numbers(mR, rows) && Numbers(mC, cols)
    ensures BlockMeans(BlockTo(q, k, mR, mC), q, x, k, rows, cols, BlockEnergy(q, x, k, mR, mC))
  {
    if k == 0 {
      NoBlock(q, x, rows, cols);
    } else {
      BlockMeansEnergy(q, x, k - 1, mR, mC, rows, cols);
      BlockStep(q, x, k - 1, mR, mC, rows, cols);
    }
  }

  lemma NoBlock(q: Csr<real>, x: seq<bool>, rows: seq<nat>, cols: seq<nat>)
    requires q.Valid()
    ensures BlockMeans(map[], q, x, 0, rows, cols, 0.0)
  {
    var m: map<Key, real> := map[];
    assert m.Keys == {};
  }

  lemma BlockStep(q: Csr<real>, x: seq<bool>, k: nat, mR: map<nat, nat>, mC: map<nat, nat>, rows: seq<nat>, cols: seq<nat>)
    requires q.Valid() && k < |q.values| && Numbers(mR, rows) && Numbers(mC, cols)
    requires BlockMeans(BlockTo(q, k, mR, mC), q, x, k, rows, cols, BlockEnergy(q, x, k, mR, mC))
    ensures BlockMeans(BlockTo(q, k + 1, mR, mC), q, x, k + 1, rows, cols, BlockEnergy(q, x, k + 1, mR, mC))
  {
    var (r, c) := q.KeyAt(k);
    if r in mR && c in mC {
      PlaceKey(BlockTo(q, k, mR, mC), q, k, rows, cols, x, mR[r], mC[c]);
    } else {
      SkipKey(BlockTo(q, k, mR, mC), q, k, rows, cols);
    }
  }

  lemma SkipKey(m: map<Key, real>, q: Csr<real>, k: nat, rows: seq<nat>, cols: seq<nat>)
    requires q.Valid() && k < |q.values| && BlockKeys(m, q, k, rows, cols)
    ensures BlockKeys(m, q, k + 1, rows, cols)
  {
  }

  /** Entry `k` takes a fresh position of its block and adds its own contribution. */
  lemma PlaceKey(m: map<Key, real>, q: Csr<real>, k: nat, rows: seq<nat>, cols: seq<nat>, x: seq<bool>, a: nat, b: nat)
    requires q.Valid() && k < |q.values| && BlockKeys(m, q, k, rows, cols)
    requires a < |rows| && b < |cols| && q.KeyAt(k) == (rows[a], cols[b])
    ensures BlockKeys(m[(a, b) := q.values[k]], q, k + 1, rows, cols)
    ensures Form(m[(a, b) := q.values[k]], Pick(x, rows), Pick(x, cols)) ==
            Form(m, Pick(x, rows), Pick(x, cols)) + if Both(x, x, q.KeyAt(k)) then q.values[k] else 0.0
  {
    q.KeyFresh(k);
    assert (a, b) !in m;
    FormAdd(m, (a, b), q.values[k], Pick(x, rows), Pick(x, cols));
  }

  /** The fixed and the free variables partition the variables. */
  ghost predicate Partition(n: nat, mI: map<nat, nat>, mJ: map<nat, nat>, iVars: seq<nat>, jVars: seq<nat>) {
    && Numbers(mI, iVars) && Numbers(mJ, jVars)
    && (forall v: nat :: v in jVars <==> v < n && v !in iVars) && (forall v | v in iVars :: v < n)
  }

  lemma {:induction false} BlocksCover(q: Csr<real>, x: seq<bool>, k: nat, mI: map<nat, nat>, mJ: map<nat, nat>, iVars: seq<nat>, jVars: seq<nat>)
    requires q.Valid() && q.numRows == q.numCols == |x| && k <= |q.values| && Partition(|x|, mI, mJ, iVars, jVars)
    ensures EnergyTo(q, x, k) == BlockEnergy(q, x, k, mI, mI) + BlockEnergy(q, x, k, mJ, mJ)
                                + BlockEnergy(q, x, k, mI, mJ) + BlockEnergy(q, x, k, mJ, mI)
  {
    if k > 0 {
      BlocksCover(q, x, k - 1, mI, mJ, iVars, jVars);
      var (r, c) := q.KeyAt(k - 1);
      assert (r in mI) != (r in mJ) && (c in mI) != (c in mJ);
    }
  }

  // ---------------------------------------------------------------- offset and linear parts

  /** The values of the fixed variables. */
  ghost function FixedValues(fixed: seq<Fixing>): (u: seq<bool>)
    ensures |u| == |fixed| && forall i | 0 <= i < |u| :: u[i] == (fixed[i].1 == 1)
  {
    seq(|fixed|, i requires 0 <= i < |fixed| => fixed[i].1 == 1)
  }

  ghost function Dot(s: seq<real>, v: seq<bool>): real
    requires |s| == |v|
  {
    if s == [] then 0.0 else
      var i := |s| - 1;
      Dot(s[..i], v[..i]) + if v[i] then s[i] else 0.0
  }

  lemma {:induction false} DotAdd(s: seq<real>, t: seq<real>, v: seq<bool>, c: nat, d: real)
    requires |s| == |t| == |v| && c < |s| && t == s[c := s[c] + d]
    ensures Dot(t, v) == Dot(s, v) + if v[c] then d else 0.0
  {
    var i := |s| - 1;
    if c < i {
      DotAdd(s[..i], t[..i], v[..i], c, d);
    } else {
      assert s[..i] == t[..i];
    }
  }

  lemma {:induction false} DotZero(s: seq<real>, v: seq<bool>)
    requires |s| == |v| && forall i | 0 <= i < |s| :: s[i] == 0.0
    ensures Dot(s, v) == 0.0
  {
    if s != [] {
      DotZero(s[..|s| - 1], v[..|s| - 1]);
    }
  }

  lemma {:induction false} DotSum(s: seq<real>, t: seq<real>, st: seq<real>, v: seq<bool>)
    requires |s| == |t| == |st| == |v| && forall i | 0 <= i < |s| :: st[i] == s[i] + t[i]
    ensures Dot(st, v) == Dot(s, v) + Dot(t, v)
  {
    if s != [] {
      var i := |s| - 1;
      DotSum(s[..i], t[..i], st[..i], v[..i]);
    }
  }

  lemma FormTake(rest: set<Key>, k: Key, m: map<Key, real>, u: seq<bool>, v: seq<bool>)
    requires k in rest && rest <= m.Keys
    ensures FormOver(rest, m, u, v) == FormOver(rest - {k}, m, u, v) + if Both(u, v, k) then m[k] else 0.0
  {
    SetSumRemove(rest, k, FormWeight(m, u, v));
  }

  /** x0' Q_II x0 */
  method FixedOffset(ii: map<Key, real>, fixed: seq<Fixing>) returns (offset: real)
    requires forall i | 0 <= i < |fixed| :: fixed[i].1 == 0 || fixed[i].1 == 1
    requires forall key: Key | key in ii :: key.0 < |fixed| && key.1 < |fixed|
    ensures offset == Form(ii, FixedValues(fixed), FixedValues(fixed))
  {
    offset := 0.0;
    var rest := ii.Keys;
    ghost var u := FixedValues(fixed);
    while rest != {}
      invariant rest <= ii.Keys
      invariant offset + FormOver(rest, ii, u, u) == Form(ii, u, u)
    {
      var k: Key :| k in rest;
      FormTake(rest, k, ii, u, u);
      offset := offset + fixed[k.0].1 as real * ii[k] * fixed[k.1].1 as real;
      rest := rest - {k};
    }
  }

  /** What the fixed rows add to each free column (x0' Q_IJ). */
  method FixedRows(ij: map<Key, real>, fixed: seq<Fixing>, free: nat) returns (tmp: seq<real>)
    requires forall i | 0 <= i < |fixed| :: fixed[i].1 == 0 || fixed[i].1 == 1
    requires forall key: Key | key in ij :: key.0 < |fixed| && key.1 < free
    ensures |tmp| == free
    ensures forall v: seq<bool> | |v| == free :: Dot(tmp, v) == Form(ij, FixedValues(fixed), v)
  {
    tmp := seq(free, _ => 0.0);
    var rest := ij.Keys;
    ghost var u := FixedValues(fixed);
    forall v: seq<bool> | |v| == free
      ensures Dot(tmp, v) == 0.0
    {
      DotZero(tmp, v);
    }
    while rest != {}
      invariant rest <= ij.Keys && |tmp| == free
      invariant forall v: seq<bool> | |v| == free :: Dot(tmp, v) + FormOver(rest, ij, u, v) == Form(ij, u, v)
    {
      var k: Key :| k in rest;
      var d := ij[k] * fixed[k.0].1 as real;
      ghost var before := tmp;
      tmp := tmp[k.1 := tmp[k.1] + d];
      forall v: seq<bool> | |v| == free
        ensures Dot(tmp, v) + FormOver(rest - {k}, ij, u, v) == Form(ij, u, v)
      {
        FormTake(rest, k, ij, u, v);
        DotAdd(before, tmp, v, k.1, d);
      }
      rest := rest - {k};
    }
  }

  /** What the fixed columns add to each free row (Q_JI x0). */
  method FixedColumns(ji: map<Key, real>, fixed: seq<Fixing>, free: nat) returns (tmp: seq<real>)
    requires forall i | 0 <= i < |fixed| :: fixed[i].1 == 0 || fixed[i].1 == 1
    requires forall key: Key | key in ji :: key.0 < free && key.1 < |fixed|
    ensures |tmp| == free
    ensures forall v: seq<bool> | |v| == free :: Dot(tmp, v) == Form(ji, v, FixedValues(fixed))
  {
    tmp := seq(free, _ => 0.0);
    var rest := ji.Keys;
    ghost var u := FixedValues(fixed);
    forall v: seq<bool> | |v| == free
      ensures Dot(tmp, v) == 0.0
    {
      DotZero(tmp, v);
    }
    while rest != {}
      invariant rest <= ji.Keys && |tmp| == free
      invariant forall v: seq<bool> | |v| == free :: Dot(tmp, v) + FormOver(rest, ji, v, u) == Form(ji, v, u)
    {
      var k: Key :| k in rest;
      var d := ji[k] * fixed[k.1].1 as real;
      ghost var before := tmp;
      tmp := tmp[k.0 := tmp[k.0] + d];
      forall v: seq<bool> | |v| == free
        ensures Dot(tmp, v) + FormOver(rest - {k}, ji, v, u) == Form(ji, v, u)
      {
        FormTake(rest, k, ji, v, u);
        DotAdd(before, tmp, v, k.0, d);
      }
      rest := rest - {k};
    }
  }

  /** Flat index `t * (m + 1)` is the diagonal position (t, t) of an m-by-m matrix, and the walk ends after m steps. */
  lemma DiagonalIndex(m: nat, t: nat)
    ensures t < m <==> t * (m + 1) < m * m
    ensures t < m ==> (t * (m + 1)) / m == t && (t * (m + 1)) % m == t
  {
    Expand(m, t);
    if t < m {
      AtMost(m, t, m - 1);
      QuotientRemainder(t * (m + 1), m, t, t);
    } else {
      AtMost(m, m, t);
    }
  }

  lemma Expand(m: nat, t: nat)
    ensures t * (m + 1) == m * t + t && (t + 1) * (m + 1) == t * (m + 1) + (m + 1)
    ensures m * (m - 1) == m * m - m
  {
  }

  /** Adds `d` to the diagonal by stepping through flat indices. */
  method AddDiagonal(jj0: map<Key, real>, d: seq<real>) returns (jj: map<Key, real>)
    requires forall key: Key | key in jj0 :: key.0 < |d| && key.1 < |d|
    ensures forall key: Key | key in jj :: key.0 < |d| && key.1 < |d| && (key in jj0 || key.0 == key.1)
    ensures forall v: seq<bool> | |v| == |d| :: Form(jj, v, v) == Form(jj0, v, v) + Dot(d, v)
  {
    var m := |d|;
    jj := jj0;
    var i, cnt := 0, 0;
    while i < m * m
      invariant i == cnt * (m + 1) && cnt <= m
      invariant forall key: Key | key in jj :: key.0 < m && key.1 < m && (key in jj0 || key.0 == key.1)
      invariant forall v: seq<bool> | |v| == m :: Form(jj, v, v) == Form(jj0, v, v) + Dot(d[..cnt], v[..cnt])
      decreases m - cnt
    {
      DiagonalIndex(m, cnt);
      Expand(m, cnt);
      jj := AddAtDiagonal(jj0, jj, d, cnt, i / m, i % m);
      cnt := cnt + 1;
      i := i + (m + 1);
    }
    DiagonalIndex(m, cnt);
    WholeDiagonal(jj0, jj, d);
  }

  lemma WholeDiagonal(jj0: map<Key, real>, jj: map<Key, real>, d: seq<real>)
    requires forall v: seq<bool> | |v| == |d| :: Form(jj, v, v) == Form(jj0, v, v) + Dot(d[..|d|], v[..|d|])
    ensures forall v: seq<bool> | |v| == |d| :: Form(jj, v, v) == Form(jj0, v, v) + Dot(d, v)
  {
    forall v: seq<bool> | |v| == |d|
      ensures Form(jj, v, v) == Form(jj0, v, v) + Dot(d, v)
    {
      assert d[..|d|] == d && v[..|d|] == v;
    }
  }

  method AddAtDiagonal(ghost jj0: map<Key, real>, jj1: map<Key, real>, d: seq<real>, cnt: nat, r: nat, c: nat) returns (jj: map<Key, real>)
    requires cnt < |d| && r == c == cnt
    requires forall key: Key | key in jj1 :: key.0 < |d| && key.1 < |d| && (key in jj0 || key.0 == key.1)
    requires forall v: seq<bool> | |v| == |d| :: Form(jj1, v, v) == Form(jj0, v, v) + Dot(d[..cnt], v[..cnt])
    ensures forall key: Key | key in jj :: key.0 < |d| && key.1 < |d| && (key in jj0 || key.0 == key.1)
    ensures forall v: seq<bool> | |v| == |d| :: Form(jj, v, v) == Form(jj0, v, v) + Dot(d[..cnt + 1], v[..cnt + 1])
  {
    jj := jj1[(r, c) := At(jj1, (r, c)) + d[cnt]];
    forall v: seq<bool> | |v| == |d|
      ensures Form(jj, v, v) == Form(jj0, v, v) + Dot(d[..cnt + 1], v[..cnt + 1])
    {
      FormAdd(jj1, (r, c), d[cnt], v, v);
      assert d[..cnt + 1][..cnt] == d[..cnt] && v[..cnt + 1][..cnt] == v[..cnt];
    }
  }

  /** The positions still to be written stay free. */
  ghost predicate RestoredSoFar(m: map<Key, real>, rest: set<Key>, jj: map<Key, real>, j: seq<nat>, mJ: map<nat, nat>) {
    && rest <= jj.Keys
    && (forall key: Key | key in m :: m[key] != 0.0 && key.0 in mJ && key.1 in mJ && (mJ[key.0], mJ[key.1]) in jj.Keys - rest)
    && (forall x: seq<bool> :: Form(m, x, x) + FormOver(rest, jj, Pick(x, j), Pick(x, j)) == Form(jj, Pick(x, j), Pick(x, j)))
  }

  lemma RestoreStep(m: map<Key, real>, m': map<Key, real>, rest: set<Key>, jj: map<Key, real>, j: seq<nat>, mJ: map<nat, nat>, k: Key)
    requires RestoredSoFar(m, rest, jj, j, mJ) && Numbers(mJ, j) && k in rest && k.0 < |j| && k.1 < |j|
    requires m' == if jj[k] != 0.0 then m[(j[k.0], j[k.1]) := jj[k]] else m
    ensures RestoredSoFar(m', rest - {k}, jj, j, mJ)
  {
    assert j[k.0] in mJ && j[k.1] in mJ && mJ[j[k.0]] == k.0 && mJ[j[k.1]] == k.1;
    assert (j[k.0], j[k.1]) !in m;
    forall x: seq<bool>
      ensures Form(m', x, x) + FormOver(rest - {k}, jj, Pick(x, j), Pick(x, j)) == Form(jj, Pick(x, j), Pick(x, j))
    {
      FormTake(rest, k, jj, Pick(x, j), Pick(x, j));
      FormAdd(m, (j[k.0], j[k.1]), jj[k], x, x);
      assert Both(x, x, (j[k.0], j[k.1])) == Both(Pick(x, j), Pick(x, j), k);
    }
  }

  /** The free block written at its original positions, zero entries dropped. */
  method Restore(jj: map<Key, real>, j: seq<nat>, ghost mJ: map<nat, nat>) returns (m: map<Key, real>)
    requires Numbers(mJ, j) && forall key: Key | key in jj :: key.0 < |j| && key.1 < |j|
    ensures forall key: Key | key in m :: m[key] != 0.0 && key.0 in j && key.1 in j && (mJ[key.0], mJ[key.1]) in jj
    ensures forall x: seq<bool> :: Form(m, x, x) == Form(jj, Pick(x, j), Pick(x, j))
  {
    m := map[];
    var rest := jj.Keys;
    RestoreStart(jj, j, mJ);
    while rest != {}
      invariant RestoredSoFar(m, rest, jj, j, mJ)
    {
      var k: Key :| k in rest;
      ghost var before := m;
      if jj[k] != 0.0 {
        m := m[(j[k.0], j[k.1]) := jj[k]];
      }
      RestoreStep(before, m, rest, jj, j, mJ, k);
      rest := rest - {k};
    }
    RestoreEnd(m, jj, j, mJ);
  }

  lemma RestoreStart(jj: map<Key, real>, j: seq<nat>, mJ: map<nat, nat>)
    ensures RestoredSoFar(map[], jj.Keys, jj, j, mJ)
  {
    var m: map<Key, real> := map[];
    assert m.Keys == {};
  }

  lemma RestoreEnd(m: map<Key, real>, jj: map<Key, real>, j: seq<nat>, mJ: map<nat, nat>)
    requires RestoredSoFar(m, {}, jj, j, mJ)
    ensures forall x: seq<bool> :: Form(m, x, x) == Form(jj, Pick(x, j), Pick(x, j))
  {
    forall x: seq<bool>
      ensures Form(m, x, x) == Form(jj, Pick(x, j), Pick(x, j))
    {
      assert FormOver({}, jj, Pick(x, j), Pick(x, j)) == 0.0;
    }
  }

  /** The QUBO left for the free variables, and the value the fixed ones contribute on their own. */
  method ComputeNewQAndOffset(q: Csr<real>, fixed: seq<Fixing>) returns (newQ: Csr<real>, offset: real)
    requires q.Valid() && q.numRows == q.numCols && IsFixing(fixed, q.numRows)
    ensures newQ.Valid() && newQ.numRows == newQ.numCols == q.numRows
    // substitution preserves the value of every assignment that has the fixed values
    ensures forall x: seq<bool> | |x| == q.numRows && Agrees(x, fixed) :: Energy(q, x) == offset + Energy(newQ, x)
    // without fixed variables nothing changes; else nothing is left in their rows and columns, and no new pair is coupled
    ensures IsReduced(q, fixed, newQ, offset)
  {
    if fixed == [] {
      return q, 0.0;
    }
    var n := q.numRows;
    var mI, iVars := IndexFixed(fixed, n);
    var j, mJ := IndexFree(mI, n);
    assert Partition(n, mI, mJ, iVars, j);
    FreeCount(n, mI, mJ, iVars, j);
    var mfixed;
    mfixed, offset := Reduce(q, fixed, mI, mJ, iVars, j);
    var r := FromMap(n, n, mfixed);
    newQ := r.value;
    forall x: seq<bool> | |x| == n && Agrees(x, fixed)
      ensures Energy(q, x) == offset + Energy(newQ, x)
    {
      EnergyIsForm(newQ, x, |newQ.values|);
    }
    forall key: Key | key in newQ.View()
      ensures newQ.View()[key] != 0.0 && Untouched(fixed, key) && (key in q.View() || key.0 == key.1)
    {
      assert forall i: nat | i < |fixed| :: iVars[i] in iVars;
    }
  }

  ghost predicate Untouched(fixed: seq<Fixing>, key: Key) {
    forall i | 0 <= i < |fixed| :: key.0 + 1 != fixed[i].0 && key.1 + 1 != fixed[i].0
  }

  ghost predicate IsReduced(q: Csr<real>, fixed: seq<Fixing>, newQ: Csr<real>, offset: real)
    requires q.Valid() && newQ.Valid()
  {
    if fixed == [] then newQ == q && offset == 0.0
    else forall key: Key | key in newQ.View() :: newQ.View()[key] != 0.0 && Untouched(fixed, key) && (key in q.View() || key.0 == key.1)
  }

  method Reduce(q: Csr<real>, fixed: seq<Fixing>, mI: map<nat, nat>, mJ: map<nat, nat>, ghost iVars: seq<nat>, j: seq<nat>)
    returns (mfixed: map<Key, real>, offset: real)
    requires q.Valid() && q.numRows == q.numCols && IsFixing(fixed, q.numRows)
    requires Partition(q.numRows, mI, mJ, iVars, j) && |j| == q.numRows - |fixed|
    requires |iVars| == |fixed| && forall i | 0 <= i < |fixed| :: iVars[i] == fixed[i].0 - 1
    ensures forall key: Key | key in mfixed :: mfixed[key] != 0.0 && key.0 in j && key.1 in j && (key in q.View() || key.0 == key.1)
    ensures forall x: seq<bool> | |x| == q.numRows && Agrees(x, fixed) :: Energy(q, x) == offset + Form(mfixed, x, x)
  {
    var ii, jj, ij, ji := SplitBlocks(q, mI, mJ);
    BlocksInRange(q, mI, mJ, iVars, j);
    mfixed, offset := FoldBlocks(ii, jj, ij, ji, fixed, mJ, j);
    forall key: Key | key in mfixed
      ensures key in q.View() || key.0 == key.1
    {
      NumberedPosition(q, mJ, j, key);
    }
    forall x: seq<bool> | |x| == q.numRows && Agrees(x, fixed)
      ensures Energy(q, x) == offset + Form(mfixed, x, x)
    {
      EnergyOfBlocks(q, fixed, mI, mJ, iVars, j, x);
    }
  }

  /** The block of the free variables has its entries at positions of the whole matrix. */
  lemma NumberedPosition(q: Csr<real>, mJ: map<nat, nat>, j: seq<nat>, key: Key)
    requires q.Valid() && Numbers(mJ, j) && key.0 in j && key.1 in j
    ensures (mJ[key.0], mJ[key.1]) in BlockTo(q, |q.values|, mJ, mJ) ==> key in q.View()
    ensures mJ[key.0] == mJ[key.1] ==> key.0 == key.1
  {
    BlockMeansEnergy(q, [], |q.values|, mJ, mJ, j, j);
    assert j[mJ[key.0]] == key.0 && j[mJ[key.1]] == key.1;
  }

  /** The block of the free variables takes up the blocks that involve fixed ones. */
  method FoldBlocks(ii: map<Key, real>, jj: map<Key, real>, ij: map<Key, real>, ji: map<Key, real>, fixed: seq<Fixing>,
                    ghost mJ: map<nat, nat>, j: seq<nat>)
    returns (mfixed: map<Key, real>, offset: real)
    requires Numbers(mJ, j) && forall i | 0 <= i < |fixed| :: fixed[i].1 == 0 || fixed[i].1 == 1
    requires forall key: Key | key in ii :: key.0 < |fixed| && key.1 < |fixed|
    requires forall key: Key | key in jj :: key.0 < |j| && key.1 < |j|
    requires forall key: Key | key in ij :: key.0 < |fixed| && key.1 < |j|
    requires forall key: Key | key in ji :: key.0 < |j| && key.1 < |fixed|
    ensures forall key: Key | key in mfixed :: mfixed[key] != 0.0 && key.0 in j && key.1 in j
    ensures forall key: Key | key in mfixed :: (mJ[key.0], mJ[key.1]) in jj || mJ[key.0] == mJ[key.1]
    ensures forall x: seq<bool> :: offset + Form(mfixed, x, x) ==
              Form(ii, FixedValues(fixed), FixedValues(fixed)) + Form(jj, Pick(x, j), Pick(x, j))
              + Form(ij, FixedValues(fixed), Pick(x, j)) + Form(ji, Pick(x, j), FixedValues(fixed))
  {
    offset := FixedOffset(ii, fixed);
    var tmp2 := FixedRows(ij, fixed, |j|);
    var tmp3 := FixedColumns(ji, fixed, |j|);
    var sum := seq(|tmp2|, i requires 0 <= i < |tmp2| => tmp2[i] + tmp3[i]);
    var full := AddDiagonal(jj, sum);
    mfixed := Restore(full, j, mJ);
    forall x: seq<bool>
      ensures Form(mfixed, x, x) == Form(jj, Pick(x, j), Pick(x, j))
                + Form(ij, FixedValues(fixed), Pick(x, j)) + Form(ji, Pick(x, j), FixedValues(fixed))
    {
      DotSum(tmp2, tmp3, sum, Pick(x, j));
    }
  }

  lemma BlocksInRange(q: Csr<real>, mI: map<nat, nat>, mJ: map<nat, nat>, iVars: seq<nat>, j: seq<nat>)
    requires q.Valid() && Numbers(mI, iVars) && Numbers(mJ, j)
    ensures forall key: Key | key in BlockTo(q, |q.values|, mI, mI) :: key.0 < |iVars| && key.1 < |iVars|
    ensures forall key: Key | key in BlockTo(q, |q.values|, mJ, mJ) :: key.0 < |j| && key.1 < |j|
    ensures forall key: Key | key in BlockTo(q, |q.values|, mI, mJ) :: key.0 < |iVars| && key.1 < |j|
    ensures forall key: Key | key in BlockTo(q, |q.values|, mJ, mI) :: key.0 < |j| && key.1 < |iVars|
  {
    BlockMeansEnergy(q, [], |q.values|, mI, mI, iVars, iVars);
    BlockMeansEnergy(q, [], |q.values|, mJ, mJ, j, j);
    BlockMeansEnergy(q, [], |q.values|, mI, mJ, iVars, j);
    BlockMeansEnergy(q, [], |q.values|, mJ, mI, j, iVars);
  }

  /** Splitting into blocks keeps the value of every assignment with the fixed values. */
  lemma EnergyOfBlocks(q: Csr<real>, fixed: seq<Fixing>, mI: map<nat, nat>, mJ: map<nat, nat>, iVars: seq<nat>, j: seq<nat>, x: seq<bool>)
    requires q.Valid() && q.numRows == q.numCols == |x| && Agrees(x, fixed) && Partition(|x|, mI, mJ, iVars, j)
    requires |iVars| == |fixed| && forall i | 0 <= i < |fixed| :: iVars[i] == fixed[i].0 - 1
    ensures var (u, v, nnz) := (FixedValues(fixed), Pick(x, j), |q.values|);
            Energy(q, x) == Form(BlockTo(q, nnz, mI, mI), u, u) + Form(BlockTo(q, nnz, mJ, mJ), v, v)
                          + Form(BlockTo(q, nnz, mI, mJ), u, v) + Form(BlockTo(q, nnz, mJ, mI), v, u)
  {
    var nnz := |q.values|;
    assert forall i | 0 <= i < |fixed| :: fixed[i] in fixed;
    assert Pick(x, iVars) == FixedValues(fixed);
    BlocksCover(q, x, nnz, mI, mJ, iVars, j);
    BlockMeansEnergy(q, x, nnz, mI, mI, iVars, iVars);
    BlockMeansEnergy(q, x, nnz, mJ, mJ, j, j);
    BlockMeansEnergy(q, x, nnz, mI, mJ, iVars, j);
    BlockMeansEnergy(q, x, nnz, mJ, mI, j, iVars);
  }

  lemma {:induction false} UpToSize(n: nat)
    ensures |UpTo(n)| == n
  {
    if n > 0 {
      UpToSize(n - 1);
    }
  }

  /** There are as many free variables as the code allocates places for. */
  lemma FreeCount(n: nat, mI: map<nat, nat>, mJ: map<nat, nat>, iVars: seq<nat>, jVars: seq<nat>)
    requires Partition(n, mI, mJ, iVars, jVars)
    ensures |iVars| + |jVars| == n
  {
    NumbersDistinct(mI, iVars);
    NumbersDistinct(mJ, jVars);
    ComplementSize(n, iVars, jVars);
  }

  lemma ComplementSize(n: nat, a: seq<nat>, b: seq<nat>)
    requires Distinct(a) && Distinct(b) && (forall v | v in a :: v < n) && forall v: nat :: v in b <==> v < n && v !in a
    ensures |a| + |b| == n
  {
    DistinctSize(a);
    DistinctSize(b);
    UpToSize(n);
    SameSet(Elements(a) + Elements(b), UpTo(n));
    assert Elements(a) !! Elements(b);
  }

  lemma NumbersDistinct(index: map<nat, nat>, vars: seq<nat>)
    requires Numbers(index, vars)
    ensures Distinct(vars)
  {
    forall i, j | 0 <= i < j < |vars|
      ensures vars[i] != vars[j]
    {
      assert index[vars[i]] == i && index[vars[j]] == j;
    }
  }
}
