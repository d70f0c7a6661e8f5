/** The mutable compressed-row matrix: access that inserts missing entries, and iteration. */
module SparseMatrices {
  import opened Results
  import opened CompressedMatrices

  ghost function KeysTo<T>(c: Csr<T>, n: nat): (keys: seq<Key>)
    requires c.Valid() && n <= |c.values|
    ensures |keys| == n && forall k: nat | k < n :: keys[k] == c.KeyAt(k)
  {
    seq(n, k requires 0 <= k < n => c.KeyAt(k))
  }

  /** A valid matrix lists its own keys. */
  lemma ValidLists<T>(c: Csr<T>)
    requires c.Valid()
    ensures Lists(c, KeysTo(c, |c.values|))
  {
    var keys := KeysTo(c, |c.values|);
    forall j: nat, k: nat | j < k < |keys|
      ensures KeyLess(keys[j], keys[k])
    {
      c.Ordered(j, k);
    }
    forall i: nat | i <= c.numRows
      ensures OffsetAt(c.rowOffsets[i], i, keys)
    {
      assert c.rowOffsets[i] <= c.rowOffsets[c.numRows];
      forall k: nat | k < |keys|
        ensures k < c.rowOffsets[i] <==> keys[k].0 < i
      {
        var r := c.Row(k);
        assert c.InRow(r, k);
        assert r < i ==> c.rowOffsets[r + 1] <= c.rowOffsets[i];
        assert i <= r ==> c.rowOffsets[i] <= c.rowOffsets[r];
      }
    }
  }

  /** The position in row `row` where column `col` belongs. */
  ghost predicate Slot<T>(c: Csr<T>, row: nat, col: nat, pos: nat)
    requires c.Valid() && row < c.numRows
  {
    && c.rowOffsets[row] <= pos <= c.rowOffsets[row + 1]
    && (forall k: nat | c.InRow(row, k) && k < |c.colIndices| && k < pos :: c.colIndices[k] < col)
    && (forall k: nat | c.InRow(row, k) && k < |c.colIndices| && pos <= k :: c.colIndices[k] > col)
  }

  function InsertAt<T>(s: seq<T>, pos: nat, x: T): (r: seq<T>)
    requires pos <= |s|
    ensures |r| == |s| + 1
    ensures forall k | 0 <= k < |r| :: r[k] == if k < pos then s[k] else if k == pos then x else s[k - 1]
  {
    s[..pos] + [x] + s[pos..]
  }

  /** Offsets of later rows move up by one. */
  ghost predicate Raised(before: seq<nat>, after: seq<nat>, row: nat) {
    |after| == |before| && forall i | 0 <= i < |before| :: after[i] == if i > row then before[i] + 1 else before[i]
  }

  lemma SlotOrder<T>(c: Csr<T>, row: nat, col: nat, pos: nat, k: nat)
    requires c.Valid() && row < c.numRows && Slot(c, row, col, pos) && k < |c.values|
    ensures k < pos ==> KeyLess(c.KeyAt(k), (row, col))
    ensures pos <= k ==> KeyLess((row, col), c.KeyAt(k))
  {
    var r := c.Row(k);
    assert c.InRow(r, k);
    assert r < row ==> c.rowOffsets[r + 1] <= c.rowOffsets[row];
    assert row < r ==> c.rowOffsets[row + 1] <= c.rowOffsets[r];
    if r == row {
      assert c.InRow(row, k);
    }
  }

  lemma InsertOffsets<T>(c: Csr<T>, row: nat, col: nat, pos: nat, offset: nat, i: nat)
    requires c.Valid() && row < c.numRows && Slot(c, row, col, pos) && i <= c.numRows
    requires offset == if i > row then c.rowOffsets[i] + 1 else c.rowOffsets[i]
    requires pos <= |c.values|
    ensures OffsetAt(offset, i, InsertAt(KeysTo(c, |c.values|), pos, (row, col)))
  {
    ValidLists(c);
    var keys := KeysTo(c, |c.values|);
    assert OffsetAt(c.rowOffsets[i], i, keys);
    assert i <= row ==> c.rowOffsets[i] <= c.rowOffsets[row];
    assert i > row ==> c.rowOffsets[row + 1] <= c.rowOffsets[i];
  }

  lemma InsertKeys<T>(c: Csr<T>, row: nat, col: nat, pos: nat)
    requires c.Valid() && row < c.numRows && Slot(c, row, col, pos) && pos <= |c.values|
    ensures var more := InsertAt(KeysTo(c, |c.values|), pos, (row, col)); forall j, k | 0 <= j < k < |more| :: KeyLess(more[j], more[k])
  {
    var keys := KeysTo(c, |c.values|);
    forall k: nat | k < |keys|
      ensures k < pos ==> KeyLess(keys[k], (row, col))
      ensures pos <= k ==> KeyLess((row, col), keys[k])
    {
      SlotOrder(c, row, col, pos, k);
    }
    ValidLists(c);
  }

  lemma InsertLists<T>(c: Csr<T>, row: nat, col: nat, pos: nat, x: T, d: Csr<T>)
    requires c.Valid() && row < c.numRows && col < c.numCols && Slot(c, row, col, pos) && pos <= |c.values|
    requires d.numRows == c.numRows && d.numCols == c.numCols && Raised(c.rowOffsets, d.rowOffsets, row)
    requires d.colIndices == InsertAt(c.colIndices, pos, col) && d.values == InsertAt(c.values, pos, x)
    ensures Lists(d, InsertAt(KeysTo(c, |c.values|), pos, (row, col)))
  {
    InsertKeys(c, row, col, pos);
    var more := InsertAt(KeysTo(c, |c.values|), pos, (row, col));
    forall k | 0 <= k < |more|
      ensures more[k].0 < d.numRows && more[k].1 < d.numCols && d.colIndices[k] == more[k].1
    {
      assert k < pos ==> more[k] == c.KeyAt(k);
      assert k > pos ==> more[k] == c.KeyAt(k - 1);
    }
    forall i: nat | i <= d.numRows
      ensures OffsetAt(d.rowOffsets[i], i, more)
    {
      InsertOffsets(c, row, col, pos, d.rowOffsets[i], i);
    }
  }

  /** Inserting a missing entry keeps the matrix valid and adds that entry alone. */
  lemma InsertMissing<T>(c: Csr<T>, row: nat, col: nat, pos: nat, x: T, d: Csr<T>)
    requires c.Valid() && row < c.numRows && col < c.numCols && Slot(c, row, col, pos) && pos <= |c.values|
    requires d.numRows == c.numRows && d.numCols == c.numCols && Raised(c.rowOffsets, d.rowOffsets, row)
    requires d.colIndices == InsertAt(c.colIndices, pos, col) && d.values == InsertAt(c.values, pos, x)
    ensures (row, col) !in c.View()
    ensures d.Valid() && d.View() == c.View()[(row, col) := x] && d.KeyAt(pos) == (row, col)
  {
    var keys := KeysTo(c, |c.values|);
    var more := InsertAt(keys, pos, (row, col));
    InsertLists(c, row, col, pos, x, d);
    ListsValid(d, more);
    NotStoredAtSlot(c, row, col, pos);
    var m := c.View()[(row, col) := x];
    InsertedView(c, keys, more, pos, (row, col), x, m, d);
    ListsView(d, more, m);
  }

  lemma NotStoredAtSlot<T>(c: Csr<T>, row: nat, col: nat, pos: nat)
    requires c.Valid() && row < c.numRows && Slot(c, row, col, pos)
    ensures (row, col) !in c.View()
  {
    if (row, col) in c.View() {
      SlotOrder(c, row, col, pos, c.IndexOf((row, col)));
    }
  }

  lemma InsertedView<T>(c: Csr<T>, keys: seq<Key>, more: seq<Key>, pos: nat, key: Key, x: T, m: map<Key, T>, d: Csr<T>)
    requires c.Valid() && keys == KeysTo(c, |c.values|) && pos <= |keys| && more == InsertAt(keys, pos, key)
    requires key !in c.View() && m == c.View()[key := x] && d.values == InsertAt(c.values, pos, x)
    ensures forall k | 0 <= k < |more| :: more[k] in m && m[more[k]] == d.values[k]
    ensures forall other | other in m :: other in more
  {
    forall k | 0 <= k < |more|
      ensures more[k] in m && m[more[k]] == d.values[k]
    {
      if k != pos {
        c.ViewAt(if k < pos then k else k - 1);
      }
    }
    forall other | other in m
      ensures other in more
    {
      if other == key {
        assert more[pos] == key;
      } else {
        var k := c.IndexOf(other);
        assert more[if k < pos then k else k + 1] == other;
      }
    }
  }

  lemma AssignStored<T>(c: Csr<T>, k: nat, x: T)
    requires c.Valid() && k < |c.values|
    ensures var d := c.(values := c.values[k := x]); d.Valid() && d.View() == c.View()[c.KeyAt(k) := x] && d.KeyAt(k) == c.KeyAt(k)
  {
    var d := c.(values := c.values[k := x]);
    var keys := KeysTo(c, |c.values|);
    ValidLists(c);
    assert Lists(d, keys);
    ListsValid(d, keys);
    var m := c.View()[c.KeyAt(k) := x];
    c.KeysDistinct();
    forall l: nat | l < |keys|
      ensures keys[l] in m && m[keys[l]] == d.values[l]
    {
      c.ViewAt(l);
    }
    forall key | key in m
      ensures key in keys
    {
      if key != c.KeyAt(k) {
        var l := c.IndexOf(key);
        assert keys[l] == key;
      } else {
        assert keys[k] == key;
      }
    }
    ListsView(d, keys, m);
  }

  // ---------------------------------------------------------------- one matrix, one representation

  ghost predicate Sorted(keys: seq<Key>) {
    forall j, k | 0 <= j < k < |keys| :: KeyLess(keys[j], keys[k])
  }

  /** Ascending lists with the same members are equal. */
  lemma {:induction false} SortedUnique(s: seq<Key>, t: seq<Key>)
    requires Sorted(s) && Sorted(t) && forall key: Key :: key in s <==> key in t
    ensures s == t
  {
    MembersGone(s, t);
    if s != [] {
      var l, n := |s| - 1, |t| - 1;
      assert s[l] in t && t != [];
      assert t[n] in s;
      var i :| 0 <= i < |t| && t[i] == s[l];
      var j :| 0 <= j < |s| && s[j] == t[n];
      assert !(i < n && j < l) && s[l] == t[n];
      forall key: Key
        ensures key in s[..l] <==> key in t[..n]
      {
        WithoutLast(s, key);
        WithoutLast(t, key);
      }
      SortedUnique(s[..l], t[..n]);
    }
  }

  lemma MembersGone(s: seq<Key>, t: seq<Key>)
    requires forall key: Key | key in t :: key in s
    ensures s == [] ==> t == []
  {
    if t != [] {
      assert t[0] in s;
    }
  }

  lemma WithoutLast(s: seq<Key>, key: Key)
    requires s != [] && Sorted(s)
    ensures key in s[..|s| - 1] <==> key in s && key != s[|s| - 1]
  {
  }

  lemma OffsetUnique(a: nat, b: nat, i: nat, keys: seq<Key>)
    requires OffsetAt(a, i, keys) && OffsetAt(b, i, keys)
    ensures a == b
  {
    assert a < |keys| ==> keys[a].0 >= i;
    assert b < |keys| ==> keys[b].0 >= i;
  }

  /** Two valid matrices of the same size that stand for the same map have the same three vectors. */
  lemma SameRepresentation<T>(a: Csr<T>, b: Csr<T>)
    requires a.Valid() && b.Valid() && a.numRows == b.numRows && a.numCols == b.numCols && a.View() == b.View()
    ensures a == b
  {
    var s, t := KeysTo(a, |a.values|), KeysTo(b, |b.values|);
    ValidLists(a);
    ValidLists(b);
    KeysAreStored(a);
    KeysAreStored(b);
    SortedUnique(s, t);
    forall i | 0 <= i <= a.numRows
      ensures a.rowOffsets[i] == b.rowOffsets[i]
    {
      OffsetUnique(a.rowOffsets[i], b.rowOffsets[i], i, s);
    }
    forall k: nat | k < |s|
      ensures a.values[k] == b.values[k] && a.colIndices[k] == b.colIndices[k]
    {
      a.ViewAt(k);
      b.ViewAt(k);
    }
    assert a.rowOffsets == b.rowOffsets && a.colIndices == b.colIndices && a.values == b.values;
  }

  lemma KeysAreStored<T>(c: Csr<T>)
    requires c.Valid()
    ensures forall key: Key :: key in KeysTo(c, |c.values|) <==> key in c.View()
  {
    var keys := KeysTo(c, |c.values|);
    forall key: Key
      ensures key in keys <==> key in c.View()
    {
      if key in keys {
        var k: nat :| k < |keys| && keys[k] == key;
        c.ViewAt(k);
      }
      if key in c.View() {
        assert keys[c.IndexOf(key)] == key;
      }
    }
  }

  class CompressedMatrix<T> {
    const numRows: nat
    const numCols: nat
    var rowOffsets: seq<nat>
    var colIndices: seq<nat>
    var values: seq<T>

    /** The three vectors as one value. */
    ghost function Value(): Csr<T>
      reads this
    {
      Csr(numRows, numCols, rowOffsets, colIndices, values)
    }

    ghost predicate Valid()
      reads this
    {
      Value().Valid()
    }

    constructor (numRows: nat, numCols: nat)
      ensures Valid() && this.numRows == numRows && this.numCols == numCols && Value().View() == map[]
    {
      this.numRows := numRows;
      this.numCols := numCols;
      rowOffsets := seq(numRows + 1, _ => 0);
      colIndices := [];
      values := [];
    }

    /** Finds column `col` in its row, or the place where it belongs. */
    method Search(row: nat, col: nat) returns (found: bool, pos: nat)
      requires Valid() && row < numRows
      ensures found ==> pos < |values| && Value().KeyAt(pos) == (row, col)
      ensures !found ==> pos <= |values| && Slot(Value(), row, col, pos)
    {
      var start, end := rowOffsets[row], rowOffsets[row + 1];
      assert end <= rowOffsets[numRows];
      if start == end {
        return false, start;
      }
      var low: int, high: int, mid: int := start, end - 1, start;
      while low <= high
        invariant start <= low <= high + 1 <= end
        invariant forall k: nat | start <= k < low :: colIndices[k] < col
        invariant forall k: nat | high < k < end :: colIndices[k] > col
        invariant (low == start && high == end - 1) ||
                  (start <= mid < end && ((colIndices[mid] < col && low == mid + 1) || (colIndices[mid] > col && high == mid - 1)))
      {
        mid := low + (high - low) / 2;
        assert Value().InRow(row, mid);
        if colIndices[mid] == col {
          Value().RowIs(row, mid);
          return true, mid;
        } else if colIndices[mid] < col {
          assert forall k: nat | start <= k < mid :: Value().InRow(row, k);
          low := mid + 1;
        } else {
          assert forall k: nat | mid < k < end :: Value().InRow(row, k);
          high := mid - 1;
        }
      }
      if colIndices[mid] < col {
        mid := mid + 1;
      }
      assert mid == low;
      return false, mid;
    }

    /** The position of an entry; a missing entry is inserted first. Every other entry stays as it is. */
    method At(row: nat, col: nat, zero: T) returns (r: Result<nat>)
      requires Valid()
      modifies this
      ensures Valid()
      ensures r.Failure? <==> row >= numRows || col >= numCols
      ensures r.Failure? ==> Value() == old(Value())
      ensures r.Success? ==> r.value < |values| && Value().KeyAt(r.value) == (row, col)
      ensures r.Success? ==> Value().View() == if (row, col) in old(Value().View()) then old(Value().View()) else old(Value().View())[(row, col) := zero]
    {
      if row >= numRows || col >= numCols {
        return Failure("row or col contains invalid index for compressed matrix operator().");
      }
      var found, pos := Search(row, col);
      ghost var before := Value();
      if found {
        before.ViewAt(pos);
        return Success(pos);
      }
      RaiseOffsets(row);
      colIndices := InsertAt(colIndices, pos, col);
      values := InsertAt(values, pos, zero);
      InsertMissing(before, row, col, pos, zero, Value());
      r := Success(pos);
    }

    method RaiseOffsets(row: nat)
      requires row < |rowOffsets|
      modifies this`rowOffsets
      ensures Raised(old(rowOffsets), rowOffsets, row)
    {
      ghost var before := rowOffsets;
      for i := row + 1 to |rowOffsets|
        invariant |rowOffsets| == |before|
        invariant forall k | 0 <= k < |before| :: rowOffsets[k] == if row < k < i then before[k] + 1 else before[k]
      {
        rowOffsets := rowOffsets[i := rowOffsets[i] + 1];
      }
    }
  
    /** Writing through the reference: `cm(row, col) = x`. */
    method Assign(row: nat, col: nat, x: T, zero: T) returns (r: Result<()>)
      requires Valid()
      modifies this
      ensures Valid()
      ensures r.Failure? <==> row >= numRows || col >= numCols
      ensures Value().View() == if r.Failure? then old(Value().View()) else old(Value().View())[(row, col) := x]
    {
      var at := At(row, col, zero);
      if at.Failure? {
        return Failure(at.message);
      }
      AssignStored(Value(), at.value, x);
      values := values[at.value := x];
      r := Success(());
    }
  }

  // ---------------------------------------------------------------- iteration

  /** A position of an iterator: flat index `k` and the row it lies in, or the number of rows past the last entry. */
  ghost predicate Positioned<T>(c: Csr<T>, row: nat, k: nat)
    requires c.Valid()
  {
    k <= |c.values| && if k < |c.values| then c.InRow(row, k) else row == c.numRows
  }

  /** The last row boundary, from `low` on, with this offset. */
  method LastWithOffset<T>(c: Csr<T>, low0: nat, target: nat) returns (low: nat)
    requires c.Valid() && low0 <= c.numRows && c.rowOffsets[low0] == target
    ensures low0 <= low <= c.numRows && c.rowOffsets[low] == target
    ensures forall i | low < i <= c.numRows :: c.rowOffsets[i] > target
  {
    low := low0;
    var high := c.numRows;
    while low < high
      invariant low0 <= low <= high <= c.numRows && c.rowOffsets[low] == target
      invariant forall i | high < i <= c.numRows :: c.rowOffsets[i] > target
    {
      var mid := low + (high - low + 1) / 2;
      if c.rowOffsets[mid] == target {
        low := mid;
      } else {
        assert forall i | mid <= i <= c.numRows :: c.rowOffsets[mid] <= c.rowOffsets[i];
        high := mid - 1;
      }
    }
  }

  lemma BoundaryPosition<T>(c: Csr<T>, low: nat, target: nat)
    requires c.Valid() && low <= c.numRows && c.rowOffsets[low] == target
    requires forall i | low < i <= c.numRows :: c.rowOffsets[i] > target
    ensures Positioned(c, low, target)
  {
    assert c.rowOffsets[low] <= c.rowOffsets[c.numRows];
    assert low < c.numRows ==> c.rowOffsets[low + 1] > target && c.rowOffsets[low + 1] <= c.rowOffsets[c.numRows];
  }

  class ConstIterator<T> {
    const cm: Csr<T>
    var currRow: nat
    var currIndex: nat

    ghost predicate Valid()
      reads this
    {
      cm.Valid() && Positioned(cm, currRow, currIndex)
    }

    /** `begin()` */
    constructor (cm: Csr<T>)
      requires cm.Valid()
      ensures Valid() && this.cm == cm && currIndex == 0
    {
      this.cm := cm;
      currIndex := 0;
      currRow := 0;
      new;
      currRow := LastWithOffset(cm, 0, 0);
      BoundaryPosition(cm, currRow, 0);
    }

    /** `++` */
    method Advance()
      requires Valid() && currIndex < |cm.values|
      modifies this
      ensures Valid() && currIndex == old(currIndex) + 1
    {
      currIndex := currIndex + 1;
      assert cm.rowOffsets[currRow + 1] <= cm.rowOffsets[cm.numRows];
      if currIndex == cm.rowOffsets[currRow + 1] {
        var target := cm.rowOffsets[currRow + 1];
        currRow := LastWithOffset(cm, currRow + 1, target);
        BoundaryPosition(cm, currRow, target);
      }
    }

    /** `!= end()`, which compares rows only. */
    method NotAtEnd() returns (b: bool)
      requires Valid()
      ensures b <==> currIndex < |cm.values|
    {
      b := currRow != cm.numRows;
    }
  }

  /** The loop from `begin()` to `end()` meets every stored entry once, in row-major order. */
  method Traverse<T>(cm: Csr<T>) returns (entries: seq<(Key, T)>)
    requires cm.Valid()
    ensures |entries| == |cm.values|
    ensures forall k: nat | k < |entries| :: entries[k] == (cm.KeyAt(k), cm.values[k])
    ensures forall j, k | 0 <= j < k < |entries| :: KeyLess(entries[j].0, entries[k].0)
    ensures forall k: nat | k < |entries| :: entries[k].0 in cm.View() && cm.View()[entries[k].0] == entries[k].1
    ensures forall key: Key | key in cm.View() :: exists k: nat :: k < |entries| && entries[k].0 == key
  {
    entries := [];
    var it := new ConstIterator(cm);
    var more := it.NotAtEnd();
    while more
      invariant it.Valid() && it.cm == cm && fresh(it) && |entries| == it.currIndex && (more <==> it.currIndex < |cm.values|)
      invariant forall k: nat | k < |entries| :: entries[k] == (cm.KeyAt(k), cm.values[k])
      decreases |cm.values| - it.currIndex
    {
      cm.RowIs(it.currRow, it.currIndex);
      entries := entries + [((it.currRow, cm.colIndices[it.currIndex]), cm.values[it.currIndex])];
      it.Advance();
      more := it.NotAtEnd();
    }
    forall j: nat, k: nat | j < k < |entries|
      ensures KeyLess(entries[j].0, entries[k].0)
    {
      cm.Ordered(j, k);
    }
    EntriesAreView(cm, entries);
  }

  lemma EntriesAreView<T>(cm: Csr<T>, entries: seq<(Key, T)>)
    requires cm.Valid() && |entries| == |cm.values|
    requires forall k: nat | k < |entries| :: entries[k] == (cm.KeyAt(k), cm.values[k])
    ensures forall k: nat | k < |entries| :: entries[k].0 in cm.View() && cm.View()[entries[k].0] == entries[k].1
    ensures forall key: Key | key in cm.View() :: exists k: nat :: k < |entries| && entries[k].0 == key
  {
    forall k: nat | k < |entries|
      ensures entries[k].0 in cm.View() && cm.View()[entries[k].0] == entries[k].1
    {
      cm.ViewAt(k);
    }
    forall key: Key | key in cm.View()
      ensures exists k: nat :: k < |entries| && entries[k].0 == key
    {
      var k := cm.IndexOf(key);
      assert entries[k].0 == key;
    }
  }
}
