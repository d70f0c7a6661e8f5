/** The coefficients of a pseudo-Boolean function given by its table of values.

Position `m` of the table is the value at the assignment whose true variables are the one bits of `m`. */
module Moebius {
  import opened Arithmetic
  import opened Sums

  function Pow2(b: nat): (p: nat)
    ensures p >= 1
  {
    if b == 0 then 1 else 2 * Pow2(b - 1)
  }

  /** The one bits of `m` among the lowest `b`. */
  ghost function Bits(b: nat, m: nat): (s: set<int>)
    requires m < Pow2(b)
    ensures forall v | v in s :: 0 <= v < b
  {
    if b == 0 then {} else
      var h := Pow2(b - 1);
      if m < h then Bits(b - 1, m) else Bits(b - 1, m - h) + {b - 1}
  }

  /** The test `m & (1 << j)`. */
  predicate BitSet(m: nat, j: nat) {
    (m / Pow2(j)) % 2 == 1
  }

  lemma {:induction false} BitSetIsBits(b: nat, m: nat, j: nat)
    requires m < Pow2(b) && j < b
    ensures BitSet(m, j) <==> j in Bits(b, m)
  {
    var h := Pow2(b - 1);
    if j == b - 1 {
      HalfBit(m, h);
    } else if m < h {
      BitSetIsBits(b - 1, m, j);
    } else {
      BitSetIsBits(b - 1, m - h, j);
      HighBit(b - 1, m - h, j);
    }
  }

  lemma HalfBit(m: nat, h: nat)
    requires m < 2 * h
    ensures (m / h) % 2 == 1 <==> m >= h
  {
    if m < h {
      assert m / h == 0;
    } else {
      QuotientRemainder(m, h, 1, m - h);
    }
  }

  /** Adding a higher power of two does not change bit `j`. */
  lemma HighBit(b: nat, m: nat, j: nat)
    requires j < b
    ensures BitSet(m + Pow2(b), j) == BitSet(m, j)
  {
    var d, k := Pow2(j), Pow2(b - 1 - j);
    PowSum(j, b - j);
    assert Pow2(b - j) == 2 * k;
    EvenMultiple(m, d, k);
  }

  lemma EvenMultiple(m: nat, d: nat, k: nat)
    requires d > 0
    ensures ((m + d * (2 * k)) / d) % 2 == (m / d) % 2
  {
    var q, r, n := m / d, m % d, m + d * (2 * k);
    assert n == d * (q + 2 * k) + r by {
      assert d * (q + 2 * k) == d * q + d * (2 * k);
    }
    QuotientRemainder(n, d, q + 2 * k, r);
  }

  lemma {:induction false} PowSum(a: nat, b: nat)
    ensures Pow2(a + b) == Pow2(a) * Pow2(b)
  {
    if b > 0 {
      PowSum(a, b - 1);
      assert Pow2(a + b) == 2 * Pow2(a + (b - 1));
    }
  }

  /** The inverse of the matrix that sums over subsets. */
  ghost function InvW(b: nat, i: nat, j: nat): int
    requires i < Pow2(b) && j < Pow2(b)
  {
    if b == 0 then 1 else
      var h := Pow2(b - 1);
      if i < h then (if j < h then InvW(b - 1, i, j) else 0)
      else if j < h then -InvW(b - 1, i - h, j) else InvW(b - 1, i - h, j - h)
  }

  type Matrix = seq<seq<int>>

  predicate Square(w: Matrix, n: nat) {
    |w| == n && forall i | 0 <= i < n :: |w[i]| == n
  }

  /** The upper left block is the inverse for `b` variables, everything else is zero. */
  ghost predicate Filled(w: Matrix, n: nat, b: nat) {
    && Square(w, n) && Pow2(b) <= n
    && forall i: nat, j: nat | i < n && j < n ::
         w[i][j] == if i < Pow2(b) && j < Pow2(b) then InvW(b, i, j) else 0
  }

  /** The Kronecker construction, doubling the block until it fills the matrix. */
  method BuildInverse(numVars: nat) returns (invW: Matrix)
    ensures Filled(invW, Pow2(numVars), numVars)
  {
    var n := Pow2(numVars);
    invW := seq(n, _ => seq(n, _ => 0));
    invW := invW[0 := invW[0][0 := 1]];
    assert Pow2(0) == 1;
    assert Filled(invW, n, 0);
    if numVars >= 1 {
      PowMonotone(1, numVars);
      assert Pow2(1) == 2;
      invW := invW[1 := invW[1][0 := -1]];
      invW := invW[1 := invW[1][1 := 1]];
      assert Filled(invW, n, 1);
    }
    var i := 1;
    while i < numVars
      invariant 1 <= i && (numVars >= 1 ==> i <= numVars)
      invariant Filled(invW, n, if numVars == 0 then 0 else i)
    {
      PowMonotone(i + 1, numVars);
      invW := DoubleBlock(invW, n, i);
      i := i + 1;
    }
  }

  lemma {:induction false} PowMonotone(a: nat, b: nat)
    requires a <= b
    ensures Pow2(a) <= Pow2(b)
  {
    if a < b {
      PowMonotone(a, b - 1);
    }
  }

  /** The first `rows` rows, and in the next one the first `cols` columns, of the new block are written. */
  ghost predicate Doubling(w: Matrix, n: nat, b: nat, rows: nat, cols: nat) {
    && Square(w, n) && 2 * Pow2(b) <= n
    && forall i: nat, j: nat | i < n && j < n ::
         w[i][j] == (if i < Pow2(b) then (if j < Pow2(b) then InvW(b, i, j) else 0)
                     else if Written(i - Pow2(b), j, Pow2(b), rows, cols) then InvW(b + 1, i, j) else 0)
  }

  /** Row `i` of the lower half has received its two entries for column `j` of the block. */
  predicate Written(i: nat, j: nat, h: nat, rows: nat, cols: nat)
    requires h > 0
  {
    i < h && j < 2 * h && (i < rows || (i == rows && (if j < h then j else j - h) < cols))
  }

  method DoubleBlock(w0: Matrix, n: nat, b: nat) returns (w: Matrix)
    requires Filled(w0, n, b) && 2 * Pow2(b) <= n
    ensures Filled(w, n, b + 1)
  {
    var tmp := Pow2(b);
    w := w0;
    for j := 0 to tmp
      invariant Doubling(w, n, b, j, 0)
    {
      for k := 0 to tmp
        invariant Doubling(w, n, b, j, k)
      {
        var v := w[j][k];
        w := w[j + tmp := w[j + tmp][k := -v]];
        w := w[j + tmp := w[j + tmp][k + tmp := v]];
      }
      assert forall i: nat, c: nat :: Written(i, c, tmp, j, tmp) <==> Written(i, c, tmp, j + 1, 0);
    }
  }

  // ---------------------------------------------------------------- the coefficients

  /** The first `k` terms of row `i` of the inverse matrix times the table. */
  ghost function RowSum(b: nat, i: nat, f: seq<real>, k: nat): real
    requires i < Pow2(b) && |f| == Pow2(b) && k <= |f|
  {
    if k == 0 then 0.0 else RowSum(b, i, f, k - 1) + Signed(f[k - 1], InvW(b, i, k - 1))
  }

  lemma {:induction false} InvWRange(b: nat, i: nat, j: nat)
    requires i < Pow2(b) && j < Pow2(b)
    ensures -1 <= InvW(b, i, j) <= 1
  {
    if b > 0 {
      var h := Pow2(b - 1);
      InvWRange(b - 1, if i < h then i else i - h, if j < h then j else j - h);
    }
  }

  method Coefficients(f: seq<real>, numVars: nat) returns (c: seq<real>)
    requires |f| == Pow2(numVars)
    ensures |c| == |f| && forall i: nat | i < |f| :: c[i] == RowSum(numVars, i, f, |f|)
  {
    var n := |f|;
    var invW := BuildInverse(numVars);
    c := seq(n, _ => 0.0);
    for i := 0 to n
      invariant |c| == n
      invariant forall t: nat | t < n :: c[t] == if t < i then RowSum(numVars, t, f, n) else 0.0
    {
      for j := 0 to n
        invariant |c| == n
        invariant forall t: nat | t < n && t != i :: c[t] == if t < i then RowSum(numVars, t, f, n) else 0.0
        invariant c[i] == RowSum(numVars, i, f, j)
      {
        InvWRange(numVars, i, j);
        SignedIsProduct(f[j], invW[i][j]);
        c := c[i := c[i] + invW[i][j] as real * f[j]];
      }
    }
  }

  lemma SignedIsProduct(x: real, w: int)
    requires -1 <= w <= 1
    ensures w as real * x == Signed(x, w)
  {
    assert w == -1 || w == 0 || w == 1;
  }

  /** The same coefficients by halving: those of the lower half, then the difference that the top variable makes. */
  ghost function Coeffs(f: seq<real>, b: nat): (c: seq<real>)
    requires |f| == Pow2(b)
    ensures |c| == |f|
  {
    if b == 0 then f else
      var h := Pow2(b - 1);
      var lo, hi := Coeffs(f[..h], b - 1), Coeffs(f[h..], b - 1);
      lo + seq(h, i requires 0 <= i < h => hi[i] - lo[i])
  }

  lemma {:induction false} LowerLeft(b: nat, h: nat, i: nat, f: seq<real>, lo: seq<real>, k: nat)
    requires b > 0 && |f| == Pow2(b) && h == Pow2(b - 1) && lo == f[..h] && i < h && k <= h
    ensures RowSum(b, i, f, k) == RowSum(b - 1, i, lo, k)
  {
    if k > 0 {
      LowerLeft(b, h, i, f, lo, k - 1);
    }
  }

  lemma {:induction false} LowerRight(b: nat, h: nat, i: nat, f: seq<real>, k: nat)
    requires b > 0 && |f| == Pow2(b) && h == Pow2(b - 1) && i < h && k <= h
    ensures RowSum(b, i, f, h + k) == RowSum(b, i, f, h)
  {
    if k > 0 {
      LowerRight(b, h, i, f, k - 1);
    }
  }

  lemma {:induction false} UpperLeft(b: nat, h: nat, i: nat, row: nat, f: seq<real>, lo: seq<real>, k: nat)
    requires b > 0 && |f| == Pow2(b) && h == Pow2(b - 1) && lo == f[..h] && i < h && row == i + h && k <= h
    ensures RowSum(b, row, f, k) == -RowSum(b - 1, i, lo, k)
  {
    if k > 0 {
      UpperLeft(b, h, i, row, f, lo, k - 1);
    }
  }

  lemma {:induction false} UpperRight(b: nat, h: nat, i: nat, row: nat, f: seq<real>, hi: seq<real>, k: nat)
    requires b > 0 && |f| == Pow2(b) && h == Pow2(b - 1) && hi == f[h..] && i < h && row == i + h && k <= h
    ensures RowSum(b, row, f, h + k) == RowSum(b, row, f, h) + RowSum(b - 1, i, hi, k)
  {
    if k > 0 {
      UpperRight(b, h, i, row, f, hi, k - 1);
    }
  }

  lemma {:induction false} RowSumIsCoeff(b: nat, i: nat, f: seq<real>)
    requires |f| == Pow2(b) && i < Pow2(b)
    ensures RowSum(b, i, f, |f|) == Coeffs(f, b)[i]
  {
    if b == 0 {
      assert RowSum(0, 0, f, 1) == RowSum(0, 0, f, 0) + f[0];
    } else {
      var h := Pow2(b - 1);
      CoeffHalves(f, b);
      RowHalves(b, h, i, f, f[..h], f[h..]);
      if i < h {
        RowSumIsCoeff(b - 1, i, f[..h]);
      } else {
        RowSumIsCoeff(b - 1, i - h, f[..h]);
        RowSumIsCoeff(b - 1, i - h, f[h..]);
      }
    }
  }

  lemma RowHalves(b: nat, h: nat, i: nat, f: seq<real>, lo: seq<real>, hi: seq<real>)
    requires b > 0 && h == Pow2(b - 1) && |f| == Pow2(b) == h + h && lo == f[..h] && hi == f[h..] && i < Pow2(b)
    ensures RowSum(b, i, f, h + h) == if i < h then RowSum(b - 1, i, lo, h) else RowSum(b - 1, i - h, hi, h) - RowSum(b - 1, i - h, lo, h)
  {
    if i < h {
      LowerLeft(b, h, i, f, lo, h);
      LowerRight(b, h, i, f, h);
    } else {
      UpperLeft(b, h, i - h, i, f, lo, h);
      UpperRight(b, h, i - h, i, f, hi, h);
    }
  }

  lemma CoeffHalves(f: seq<real>, b: nat)
    requires |f| == Pow2(b) && b > 0
    ensures var h := Pow2(b - 1); |f[..h]| == |f[h..]| == h
    ensures var h := Pow2(b - 1); forall i | 0 <= i < h :: Coeffs(f, b)[i] == Coeffs(f[..h], b - 1)[i]
    ensures var h := Pow2(b - 1); forall i | h <= i < |f| :: Coeffs(f, b)[i] == Coeffs(f[h..], b - 1)[i - h] - Coeffs(f[..h], b - 1)[i - h]
  {
  }

  // ---------------------------------------------------------------- summing over subsets gives the table back

  /** Value of the polynomial with coefficients `c` at the true variables `x`. */
  ghost function Eval(c: seq<real>, b: nat, x: set<int>): real
    requires |c| == Pow2(b)
  {
    if b == 0 then c[0] else
      var h := Pow2(b - 1);
      Eval(c[..h], b - 1, x) + if b - 1 in x then Eval(c[h..], b - 1, x) else 0.0
  }

  /** Entry of the table at the true variables `x`. */
  ghost function TableAt(f: seq<real>, b: nat, x: set<int>): real
    requires |f| == Pow2(b)
  {
    if b == 0 then f[0] else
      var h := Pow2(b - 1);
      if b - 1 in x then TableAt(f[h..], b - 1, x) else TableAt(f[..h], b - 1, x)
  }

  lemma {:induction false} EvalDifference(c: seq<real>, d: seq<real>, e: seq<real>, b: nat, x: set<int>)
    requires |c| == |d| == |e| == Pow2(b) && forall i | 0 <= i < |c| :: e[i] == c[i] - d[i]
    ensures Eval(e, b, x) == Eval(c, b, x) - Eval(d, b, x)
  {
    if b > 0 {
      var h := Pow2(b - 1);
      EvalDifference(c[..h], d[..h], e[..h], b - 1, x);
      EvalDifference(c[h..], d[h..], e[h..], b - 1, x);
    }
  }

  /** Moebius inversion. */
  lemma {:induction false} EvalOfCoeffs(f: seq<real>, b: nat, x: set<int>)
    requires |f| == Pow2(b)
    ensures Eval(Coeffs(f, b), b, x) == TableAt(f, b, x)
  {
    if b > 0 {
      var h := Pow2(b - 1);
      var lo, hi := Coeffs(f[..h], b - 1), Coeffs(f[h..], b - 1);
      var c := Coeffs(f, b);
      EvalOfCoeffs(f[..h], b - 1, x);
      EvalOfCoeffs(f[h..], b - 1, x);
      assert c[..h] == lo;
      EvalDifference(hi, lo, c[h..], b - 1, x);
    }
  }

  lemma {:induction false} TableAtBits(f: seq<real>, b: nat, y: nat)
    requires |f| == Pow2(b) && y < |f|
    ensures TableAt(f, b, Bits(b, y)) == f[y]
  {
    if b > 0 {
      var h := Pow2(b - 1);
      if y < h {
        TableAtBits(f[..h], b - 1, y);
      } else {
        TableAtBits(f[h..], b - 1, y - h);
        TableAtLow(f[h..], b - 1, Bits(b - 1, y - h), Bits(b, y));
      }
    }
  }

  lemma {:induction false} TableAtLow(f: seq<real>, b: nat, x: set<int>, y: set<int>)
    requires |f| == Pow2(b) && forall v | 0 <= v < b :: v in x <==> v in y
    ensures TableAt(f, b, x) == TableAt(f, b, y)
  {
    if b > 0 {
      var h := Pow2(b - 1);
      TableAtLow(f[..h], b - 1, x, y);
      TableAtLow(f[h..], b - 1, x, y);
    }
  }

  /** The sum of the coefficients of the first `k` products that are true at `x`. */
  ghost function FlatSum(c: seq<real>, b: nat, x: set<int>, k: nat): real
    requires |c| == Pow2(b) && k <= |c|
  {
    if k == 0 then 0.0 else FlatSum(c, b, x, k - 1) + if Bits(b, k - 1) <= x then c[k - 1] else 0.0
  }

  lemma {:induction false} FlatHalves(c: seq<real>, b: nat, x: set<int>, k: nat)
    requires b > 0 && |c| == Pow2(b) && k <= Pow2(b - 1)
    ensures FlatSum(c, b, x, k) == FlatSum(c[..Pow2(b - 1)], b - 1, x, k)
    ensures FlatSum(c, b, x, Pow2(b - 1) + k) ==
              FlatSum(c, b, x, Pow2(b - 1)) + if b - 1 in x then FlatSum(c[Pow2(b - 1)..], b - 1, x, k) else 0.0
  {
    if k > 0 {
      var h := Pow2(b - 1);
      FlatHalves(c, b, x, k - 1);
      assert Bits(b, h + k - 1) <= x <==> b - 1 in x && Bits(b - 1, k - 1) <= x;
    }
  }

  lemma {:induction false} FlatIsEval(c: seq<real>, b: nat, x: set<int>)
    requires |c| == Pow2(b)
    ensures FlatSum(c, b, x, |c|) == Eval(c, b, x)
  {
    if b == 0 {
      assert FlatSum(c, 0, x, 1) == FlatSum(c, 0, x, 0) + c[0];
    } else {
      var h := Pow2(b - 1);
      FlatHalves(c, b, x, h);
      FlatIsEval(c[..h], b - 1, x);
      FlatIsEval(c[h..], b - 1, x);
    }
  }

  /** f[y] is the sum of the coefficients of all products of variables that are true at y. */
  lemma SubsetSums(f: seq<real>, b: nat, c: seq<real>, x: set<int>)
    requires |f| == Pow2(b) == |c| && forall i: nat | i < |f| :: c[i] == RowSum(b, i, f, |f|)
    ensures FlatSum(c, b, x, |c|) == TableAt(f, b, x)
  {
    forall i: nat | i < |f|
      ensures c[i] == Coeffs(f, b)[i]
    {
      RowSumIsCoeff(b, i, f);
    }
    assert c == Coeffs(f, b);
    FlatIsEval(c, b, x);
    EvalOfCoeffs(f, b, x);
  }
}
