/** The compressed-row sparse matrix that every graph and problem of the library is stored in.

`Csr` is the value a `const CompressedMatrix&` denotes: three vectors and the two sizes.
`View` is the plain map from (row, column) to stored entry that the vectors stand for. */
module CompressedMatrices {
  import opened Results

  type Key = (nat, nat)

  /** The order in which a `std::map` keyed by pairs is iterated. */
  predicate KeyLess(a: Key, b: Key) {
    a.0 < b.0 || (a.0 == b.0 && a.1 < b.1)
  }

  datatype Csr<T> = Csr(numRows: nat, numCols: nat, rowOffsets: seq<nat>, colIndices: seq<nat>, values: seq<T>)
  {
    ghost predicate Valid() {
      && |rowOffsets| == numRows + 1
      && rowOffsets[0] == 0
      && rowOffsets[numRows] == |colIndices| == |values|
      && (forall i, j | 0 <= i <= j <= numRows :: rowOffsets[i] <= rowOffsets[j])
      && (forall k | 0 <= k < |colIndices| :: colIndices[k] < numCols)
      && (forall i: nat, j: nat, k: nat | j < k && InRow(i, j) && InRow(i, k) ::
            k < |colIndices| ==> colIndices[j] < colIndices[k])
    }

    /** Flat index `k` lies in the stretch that the offsets give to row `i`. */
    ghost predicate InRow(i: nat, k: nat) {
      i < numRows && numRows < |rowOffsets| && rowOffsets[i] <= k < rowOffsets[i + 1]
    }

    /** The row that flat index `k` lies in. */
    ghost function Row(k: nat): (i: nat)
      requires Valid() && k < |values|
      ensures InRow(i, k)
    {
      RowExists(numRows, k);
      var i: nat :| InRow(i, k);
      i
    }

    lemma {:induction false} RowExists(rows: nat, k: nat)
      requires Valid() && rows <= numRows && k < rowOffsets[rows]
      ensures exists i: nat :: InRow(i, k)
    {
      if rowOffsets[rows - 1] <= k {
        assert InRow(rows - 1, k);
      } else {
        RowExists(rows - 1, k);
      }
    }

    lemma RowIs(i: nat, k: nat)
      requires Valid() && InRow(i, k)
      ensures k < |values| && Row(k) == i
    {
      assert rowOffsets[i + 1] <= rowOffsets[numRows];
      var j := Row(k);
      assert InRow(j, k);
    }

    ghost function KeyAt(k: nat): (key: Key)
      requires Valid() && k < |values|
      ensures key.0 < numRows && key.1 < numCols
    {
      (Row(k), colIndices[k])
    }

    /** Flat order is row-major order. */
    lemma Ordered(j: nat, k: nat)
      requires Valid() && j < k < |values|
      ensures KeyLess(KeyAt(j), KeyAt(k))
    {
    }

    lemma KeysDistinct()
      requires Valid()
      ensures forall j: nat, k: nat | j < |values| && k < |values| && KeyAt(j) == KeyAt(k) :: j == k
    {
      forall j: nat, k: nat | j < |values| && k < |values| && KeyAt(j) == KeyAt(k)
        ensures j == k
      {
        if j < k { Ordered(j, k); } else if k < j { Ordered(k, j); }
      }
    }

    /** The first `n` stored entries as a map. */
    ghost function ViewTo(n: nat): (m: map<Key, T>)
      requires Valid() && n <= |values|
    {
      if n == 0 then map[] else ViewTo(n - 1)[KeyAt(n - 1) := values[n - 1]]
    }

    lemma {:induction false} ViewToHolds(n: nat, k: nat)
      requires Valid() && k < n <= |values|
      ensures KeyAt(k) in ViewTo(n) && ViewTo(n)[KeyAt(k)] == values[k]
    {
      var last, key := KeyAt(n - 1), KeyAt(k);
      assert ViewTo(n) == ViewTo(n - 1)[last := values[n - 1]];
      if k < n - 1 {
        ViewToHolds(n - 1, k);
        assert key != last by { Ordered(k, n - 1); }
      }
    }

    lemma {:induction false} ViewToOnly(n: nat, key: Key)
      requires Valid() && n <= |values| && key in ViewTo(n)
      ensures exists k: nat :: k < n && KeyAt(k) == key
    {
      if key != KeyAt(n - 1) {
        ViewToOnly(n - 1, key);
      }
    }

    lemma KeyFresh(k: nat)
      requires Valid() && k < |values|
      ensures KeyAt(k) !in ViewTo(k)
    {
      if KeyAt(k) in ViewTo(k) {
        ViewToOnly(k, KeyAt(k));
        KeysDistinct();
      }
    }

    ghost function View(): (m: map<Key, T>)
      requires Valid()
    {
      ViewTo(|values|)
    }

    /** The flat index that holds a stored entry. */
    ghost function IndexOf(key: Key): (k: nat)
      requires Valid() && key in View()
      ensures k < |values| && KeyAt(k) == key && View()[key] == values[k]
    {
      ViewToOnly(|values|, key);
      var k: nat :| k < |values| && KeyAt(k) == key;
      ViewToHolds(|values|, k);
      k
    }

    ghost function Lookup(key: Key, zero: T): T
      requires Valid()
    {
      if key in View() then View()[key] else zero
    }

    lemma ViewAt(k: nat)
      requires Valid() && k < |values|
      ensures KeyAt(k) in View() && View()[KeyAt(k)] == values[k]
    {
      ViewToHolds(|values|, k);
    }

    lemma NotStored(row: nat, col: nat)
      requires Valid() && row < numRows
      requires forall k | rowOffsets[row] <= k < rowOffsets[row + 1] :: k < |values| && colIndices[k] != col
      ensures (row, col) !in View()
    {
      if (row, col) in View() {
        ViewToOnly(|values|, (row, col));
      }
    }

    /** Binary search in one row; a position that is not stored reads as zero. */
    method Get(row: nat, col: nat, zero: T) returns (r: Result<T>)
      requires Valid()
      ensures r.Failure? <==> row >= numRows || col >= numCols
      ensures r.Success? ==> r.value == Lookup((row, col), zero)
    {
      if row >= numRows || col >= numCols {
        return Failure("row or col contains invalid index for compressed matrix get.");
      }
      var start: int, end: int := rowOffsets[row], rowOffsets[row + 1];
      assert end <= rowOffsets[numRows];
      var low: int, high: int := start, end - 1;
      while low <= high
        invariant start <= low <= high + 1 <= end
        invariant forall k | start <= k < low :: colIndices[k] < col
        invariant forall k | high < k < end :: colIndices[k] > col
      {
        var mid := low + (high - low) / 2;
        assert InRow(row, mid);
        if colIndices[mid] == col {
          RowIs(row, mid);
          ViewAt(mid);
          return Success(values[mid]);
        } else if colIndices[mid] < col {
          forall k | start <= k < mid
            ensures colIndices[k] < colIndices[mid]
          {
            assert InRow(row, k);
          }
          low := mid + 1;
        } else {
          forall k | mid < k < end
            ensures colIndices[mid] < colIndices[k]
          {
            assert InRow(row, k);
          }
          high := mid - 1;
        }
      }
      NotStored(row, col);
      r := Success(zero);
    }
  }

  /** `keys` lists the positions of the stored entries of `c` in flat order. */
  ghost predicate Lists<T>(c: Csr<T>, keys: seq<Key>) {
    && |c.rowOffsets| == c.numRows + 1
    && |c.colIndices| == |c.values| == |keys|
    && (forall k | 0 <= k < |keys| :: keys[k].0 < c.numRows && keys[k].1 < c.numCols && c.colIndices[k] == keys[k].1)
    && (forall j, k | 0 <= j < k < |keys| :: KeyLess(keys[j], keys[k]))
    && (forall i | 0 <= i <= c.numRows :: OffsetAt(c.rowOffsets[i], i, keys))
  }

  /** `offset` entries lie in the rows above row `i`. */
  ghost predicate OffsetAt(offset: nat, i: nat, keys: seq<Key>) {
    offset <= |keys| && forall k | 0 <= k < |keys| :: k < offset <==> keys[k].0 < i
  }

  lemma ListsValid<T>(c: Csr<T>, keys: seq<Key>)
    requires Lists(c, keys)
    ensures c.Valid()
    ensures forall k: nat | k < |keys| :: c.KeyAt(k) == keys[k]
  {
    forall i, j | 0 <= i <= j <= c.numRows
      ensures c.rowOffsets[i] <= c.rowOffsets[j]
    {
      var oi, oj := c.rowOffsets[i], c.rowOffsets[j];
      assert OffsetAt(oi, i, keys) && OffsetAt(oj, j, keys);
      assert oi > 0 ==> keys[oi - 1].0 < j;
    }
    var first, last := c.rowOffsets[0], c.rowOffsets[c.numRows];
    assert OffsetAt(first, 0, keys) && OffsetAt(last, c.numRows, keys);
    assert 0 < first ==> keys[0].0 < 0;
    assert keys != [] ==> keys[|keys| - 1].0 < c.numRows;
    forall k: nat, i: nat | k < |keys| && c.InRow(i, k)
      ensures keys[k].0 == i
    {
      assert OffsetAt(c.rowOffsets[i], i, keys) && OffsetAt(c.rowOffsets[i + 1], i + 1, keys);
    }
  }

  lemma {:induction false} ListsView<T>(c: Csr<T>, keys: seq<Key>, m: map<Key, T>)
    requires Lists(c, keys) && c.Valid()
    requires forall k: nat | k < |keys| :: c.KeyAt(k) == keys[k]
    requires forall k | 0 <= k < |keys| :: keys[k] in m && m[keys[k]] == c.values[k]
    requires forall key | key in m :: key in keys
    ensures c.View() == m
  {
    var v := c.View();
    forall key | key in v
      ensures key in m && m[key] == v[key]
    {
      var k := c.IndexOf(key);
    }
    forall key | key in m
      ensures key in v
    {
      var k :| 0 <= k < |keys| && keys[k] == key;
      c.ViewAt(k);
    }
  }

  lemma {:induction false} LeastKey(s: set<Key>) returns (least: Key)
    requires s != {}
    ensures least in s && forall k | k in s :: k == least || KeyLess(least, k)
    decreases |s|
  {
    least :| least in s;
    if s - {least} != {} {
      var other := LeastKey(s - {least});
      var first := least;
      if KeyLess(other, least) {
        least := other;
      }
      forall k | k in s
        ensures k == least || KeyLess(least, k)
      {
        assert k == first || k in s - {first};
      }
    } else {
      assert s == {least};
    }
  }

  method SetOffsets(rowOffsets: seq<nat>, from: nat, to: nat, offset: nat) returns (r: seq<nat>)
    requires from <= to <= |rowOffsets|
    ensures |r| == |rowOffsets|
    ensures forall i | 0 <= i < |r| :: r[i] == if from <= i < to then offset else rowOffsets[i]
  {
    r := rowOffsets;
    for i := from to to
      invariant |r| == |rowOffsets|
      invariant forall j | 0 <= j < |r| :: r[j] == if from <= j < i then offset else rowOffsets[j]
    {
      r := r[i := offset];
    }
  }

  /** `keys` has been appended in ascending order; the rest of the map comes later. */
  ghost predicate Appended<T>(m: map<Key, T>, rest: set<Key>, keys: seq<Key>, colIndices: seq<nat>, values: seq<T>) {
    && rest <= m.Keys && (forall key | key in m :: key in rest || key in keys)
    && |keys| == |colIndices| == |values|
    && (forall k | 0 <= k < |keys| :: keys[k] in m && m[keys[k]] == values[k] && colIndices[k] == keys[k].1)
    && (forall j, k | 0 <= j < k < |keys| :: KeyLess(keys[j], keys[k]))
    && (forall k, key | 0 <= k < |keys| && key in rest :: KeyLess(keys[k], key))
  }

  /** Rows before `currRow` have their offsets, and no later row has an entry yet. */
  ghost predicate OffsetsTo(rowOffsets: seq<nat>, keys: seq<Key>, currRow: nat) {
    && currRow < |rowOffsets|
    && (forall k | 0 <= k < |keys| :: keys[k].0 < currRow)
    && (forall i | 0 <= i < currRow :: OffsetAt(rowOffsets[i], i, keys))
  }

  lemma NextOffsets(rowOffsets: seq<nat>, keys: seq<Key>, currRow: nat, it: Key, after: seq<nat>)
    requires OffsetsTo(rowOffsets, keys, currRow) && it.0 + 1 < |rowOffsets| && currRow <= it.0 + 1
    requires |after| == |rowOffsets|
    requires forall i | 0 <= i < |after| :: after[i] == if currRow <= i < it.0 + 1 then |keys| else rowOffsets[i]
    ensures OffsetsTo(after, keys + [it], it.0 + 1)
  {
    var more := keys + [it];
    forall i | 0 <= i < it.0 + 1
      ensures OffsetAt(after[i], i, more)
    {
      assert i < currRow ==> OffsetAt(rowOffsets[i], i, keys);
    }
  }

  lemma AppendLeast<T>(m: map<Key, T>, rest: set<Key>, keys: seq<Key>, colIndices: seq<nat>, values: seq<T>, it: Key)
    requires Appended(m, rest, keys, colIndices, values)
    requires it in rest && forall k | k in rest :: k == it || KeyLess(it, k)
    ensures Appended(m, rest - {it}, keys + [it], colIndices + [it.1], values + [m[it]])
  {
  }

  lemma AllAppended<T>(m: map<Key, T>, keys: seq<Key>, c: Csr<T>, rowOffsets: seq<nat>, currRow: nat)
    requires Appended(m, {}, keys, c.colIndices, c.values) && OffsetsTo(rowOffsets, keys, currRow)
    requires |rowOffsets| == |c.rowOffsets| == c.numRows + 1 && forall key | key in keys :: key.0 < c.numRows && key.1 < c.numCols
    requires forall i | 0 <= i < |c.rowOffsets| :: c.rowOffsets[i] == if currRow <= i < |c.rowOffsets| then |keys| else rowOffsets[i]
    ensures c.Valid() && c.View() == m
  {
    forall k | 0 <= k < |keys|
      ensures keys[k].0 < c.numRows && keys[k].1 < c.numCols
    {
      assert keys[k] in keys;
    }
    forall i | 0 <= i <= c.numRows
      ensures OffsetAt(c.rowOffsets[i], i, keys)
    {
      assert i < currRow ==> OffsetAt(rowOffsets[i], i, keys);
    }
    ListsValid(c, keys);
    ListsView(c, keys, m);
  }

  /** The constructor from a `std::map`, which it walks in key order. */
  method FromMap<T>(numRows: nat, numCols: nat, m: map<Key, T>) returns (r: Result<Csr<T>>)
    ensures r.Failure? <==> exists key :: key in m && (key.0 >= numRows || key.1 >= numCols)
    ensures r.Success? ==> r.value.Valid() && r.value.numRows == numRows && r.value.numCols == numCols
    ensures r.Success? ==> r.value.View() == m
  {
    var rowOffsets: seq<nat> := seq(numRows + 1, _ => 0);
    var colIndices: seq<nat>, values: seq<T> := [], [];
    var offset: nat, currRow: nat := 0, 0;
    var rest := m.Keys;
    ghost var keys: seq<Key> := [];
    while rest != {}
      invariant Appended(m, rest, keys, colIndices, values) && offset == |keys|
      invariant |rowOffsets| == numRows + 1 && OffsetsTo(rowOffsets, keys, currRow)
      invariant forall key | key in rest :: currRow <= key.0 + 1
      invariant forall key | key in keys :: key.0 < numRows && key.1 < numCols
    {
      ghost var least := LeastKey(rest);
      var it :| it in rest && forall k | k in rest :: k == it || KeyLess(it, k);
      if it.0 >= numRows || it.1 >= numCols {
        return Failure("map contains invalid index for compressed matrix constructor.");
      }
      AppendLeast(m, rest, keys, colIndices, values, it);
      rowOffsets, currRow := OpenRows(rowOffsets, currRow, it, offset, keys);
      colIndices, values := colIndices + [it.1], values + [m[it]];
      keys := keys + [it];
      offset := offset + 1;
      rest := rest - {it};
    }
    ghost var before := rowOffsets;
    rowOffsets := SetOffsets(rowOffsets, currRow, |rowOffsets|, offset);
    var c := Csr(numRows, numCols, rowOffsets, colIndices, values);
    AllAppended(m, keys, c, before, currRow);
    r := Success(c);
  }

  /** Gives the rows up to that of `it` their offsets. */
  method OpenRows(before: seq<nat>, currRow0: nat, it: Key, offset: nat, ghost keys: seq<Key>) returns (rowOffsets: seq<nat>, currRow: nat)
    requires OffsetsTo(before, keys, currRow0) && offset == |keys| && currRow0 <= it.0 + 1 < |before|
    ensures |rowOffsets| == |before| && currRow == it.0 + 1 && OffsetsTo(rowOffsets, keys + [it], currRow)
  {
    rowOffsets, currRow := before, currRow0;
    if currRow <= it.0 {
      rowOffsets := SetOffsets(rowOffsets, currRow, it.0 + 1, offset);
      currRow := it.0 + 1;
    }
    NextOffsets(before, keys, currRow0, it, rowOffsets);
  }

  /** The map a matrix denotes, rebuilt entry by entry. */
  method CompressedMatrixToMap<T>(cm: Csr<T>) returns (ret: map<Key, T>)
    requires cm.Valid()
    ensures ret == cm.View()
  {
    ret := map[];
    for i := 0 to cm.numRows
      invariant cm.rowOffsets[i] <= |cm.values|
      invariant ret == cm.ViewTo(cm.rowOffsets[i])
    {
      var start, end := cm.rowOffsets[i], cm.rowOffsets[i + 1];
      for j := start to end
        invariant end <= |cm.values|
        invariant ret == cm.ViewTo(j)
      {
        cm.RowIs(i, j);
        cm.KeyFresh(j);
        var key := (i, cm.colIndices[j]);
        assert key == cm.KeyAt(j);
        ret := InsertNew(ret, key, cm.values[j]);
      }
    }
  }

  /** `std::map::insert`: an existing entry is kept. */
  function InsertNew<T>(m: map<Key, T>, key: Key, value: T): map<Key, T> {
    if key in m then m else m[key := value]
  }
}
