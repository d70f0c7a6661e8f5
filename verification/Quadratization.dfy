/** From a table of values to an equivalent quadratic function over more variables. */
module Quadratization {
  import opened Arithmetic
  import opened Queues
  import opened Results
  import opened Sums
  import opened Moebius
  import opened DegreeReduction

  /** Coefficients up to this size are dropped. */
  const THRESHOLD: real := 0.0000000001

  predicate Kept(c: real) {
    AbsReal(c) > THRESHOLD
  }

  /** The sum of the coefficients of the terms all of whose variables are true. */
  ghost function TermSum(coeffs: seq<real>, terms: seq<set<int>>, x: set<int>): real
    requires |coeffs| == |terms|
  {
    if terms == [] then 0.0 else
      var i := |terms| - 1;
      TermSum(coeffs[..i], terms[..i], x) + if terms[i] <= x then coeffs[i] else 0.0
  }

  ghost function SumAbs(coeffs: seq<real>): (s: real)
    ensures s >= 0.0
  {
    if coeffs == [] then 0.0 else SumAbs(coeffs[..|coeffs| - 1]) + AbsReal(coeffs[|coeffs| - 1])
  }

  // ---------------------------------------------------------------- the terms that are kept

  /** The first `k` table positions whose coefficient is kept. */
  ghost function KeptTo(c: seq<real>, k: nat): (s: seq<nat>)
    requires k <= |c|
    ensures forall t | 0 <= t < |s| :: s[t] < k && Kept(c[s[t]])
  {
    if k == 0 then [] else KeptTo(c, k - 1) + if Kept(c[k - 1]) then [k - 1] else []
  }

  method CollectTerms(c: seq<real>, numVars: nat) returns (nonZeroIndex: seq<nat>, terms: seq<set<int>>)
    requires |c| == Pow2(numVars)
    ensures nonZeroIndex == KeptTo(c, |c|) && |terms| == |nonZeroIndex|
    ensures forall t | 0 <= t < |terms| :: nonZeroIndex[t] < |c| && terms[t] == Bits(numVars, nonZeroIndex[t])
  {
    nonZeroIndex, terms := [], [];
    for i := 0 to |c|
      invariant nonZeroIndex == KeptTo(c, i) && |terms| == |nonZeroIndex|
      invariant forall t | 0 <= t < |terms| :: nonZeroIndex[t] < |c| && terms[t] == Bits(numVars, nonZeroIndex[t])
    {
      if AbsReal(c[i]) > THRESHOLD {
        nonZeroIndex := nonZeroIndex + [i];
        var tmp: set<int> := {};
        for j := 0 to numVars
          invariant forall v :: v in tmp <==> 0 <= v < j && v in Bits(numVars, i)
        {
          BitSetIsBits(numVars, i, j);
          if BitSet(i, j) {
            tmp := tmp + {j};
          }
        }
        ghost var bits := Bits(numVars, i);
        SameSet(tmp, bits);
        terms := terms + [tmp];
      }
    }
  }

  /** The sum of the coefficients at the listed positions whose products are true at `x`. */
  ghost function IndexSum(c: seq<real>, b: nat, index: seq<nat>, x: set<int>): real
    requires |c| == Pow2(b) && forall t | 0 <= t < |index| :: index[t] < |c|
  {
    if index == [] then 0.0 else
      var last := index[|index| - 1];
      IndexSum(c, b, index[..|index| - 1], x) + if Bits(b, last) <= x then c[last] else 0.0
  }

  lemma {:induction false} IndexSumIsTermSum(c: seq<real>, b: nat, index: seq<nat>, coeffs: seq<real>, terms: seq<set<int>>, x: set<int>)
    requires |c| == Pow2(b) && (forall t | 0 <= t < |index| :: index[t] < |c|) && |coeffs| == |terms| == |index|
    requires forall t | 0 <= t < |index| :: index[t] < |c| && coeffs[t] == c[index[t]] && terms[t] == Bits(b, index[t])
    ensures IndexSum(c, b, index, x) == TermSum(coeffs, terms, x)
  {
    if index != [] {
      var l := |index| - 1;
      IndexSumIsTermSum(c, b, index[..l], coeffs[..l], terms[..l], x);
    }
  }

  /** The coefficients that are not kept. */
  ghost function Dropped(c: seq<real>): (d: seq<real>)
    ensures |d| == |c| && forall i | 0 <= i < |d| :: d[i] == if Kept(c[i]) then 0.0 else c[i]
  {
    seq(|c|, i requires 0 <= i < |c| => if Kept(c[i]) then 0.0 else c[i])
  }

  ghost function KeptSum(c: seq<real>, b: nat, x: set<int>, k: nat): real
    requires |c| == Pow2(b) && k <= |c|
  {
    if k == 0 then 0.0 else KeptSum(c, b, x, k - 1) + if Kept(c[k - 1]) && Bits(b, k - 1) <= x then c[k - 1] else 0.0
  }

  lemma {:induction false} KeptAndDropped(c: seq<real>, b: nat, x: set<int>, k: nat)
    requires |c| == Pow2(b) && k <= |c|
    ensures FlatSum(c, b, x, k) == KeptSum(c, b, x, k) + FlatSum(Dropped(c), b, x, k)
  {
    if k > 0 {
      KeptAndDropped(c, b, x, k - 1);
    }
  }

  lemma {:induction false} KeptSumIsIndexSum(c: seq<real>, b: nat, x: set<int>, k: nat)
    requires |c| == Pow2(b) && k <= |c|
    ensures KeptSum(c, b, x, k) == IndexSum(c, b, KeptTo(c, k), x)
  {
    if k > 0 {
      KeptSumIsIndexSum(c, b, x, k - 1);
      var index, before := KeptTo(c, k), KeptTo(c, k - 1);
      if Kept(c[k - 1]) {
        assert index[..|index| - 1] == before;
      } else {
        assert index == before;
      }
    }
  }

  // ---------------------------------------------------------------- energies

  /** The quadratic form at the true variables `x`. */
  ghost function Within(x: set<int>): Pair -> int {
    (k: Pair) => if k.0 in x && k.1 in x then 1 else 0
  }

  ghost function Energy(q: map<Pair, real>, x: set<int>): real {
    MapSum(q, Within(x))
  }

  ghost function LinearSum(r: seq<real>, x: set<int>): real {
    if r == [] then 0.0 else
      var i := |r| - 1;
      LinearSum(r[..i], x) + if i in x then r[i] else 0.0
  }

  lemma {:induction false} LinearSumAdd(r: seq<real>, s: seq<real>, i: nat, d: real, x: set<int>)
    requires i < |r| == |s| && s == r[i := r[i] + d]
    ensures LinearSum(s, x) == LinearSum(r, x) + if i in x then d else 0.0
  {
    var l := |r| - 1;
    if i < l {
      LinearSumAdd(r[..l], s[..l], i, d, x);
    } else {
      assert r[..l] == s[..l];
    }
  }

  lemma {:induction false} LinearSumZero(r: seq<real>, x: set<int>)
    requires forall i | 0 <= i < |r| :: r[i] == 0.0
    ensures LinearSum(r, x) == 0.0
  {
    if r != [] {
      LinearSumZero(r[..|r| - 1], x);
    }
  }

  ghost function Total(r: seq<real>, q: map<Pair, real>, x: set<int>): real {
    LinearSum(r, x) + Energy(q, x)
  }

  /** The matrix is symmetric. */
  ghost predicate Mirrored(q: map<Pair, real>) {
    forall u, v :: EntryAt(q, (u, v)) == EntryAt(q, (v, u))
  }

  ghost predicate NoDiagonal(q: map<Pair, real>) {
    forall v :: EntryAt(q, (v, v)) == 0.0
  }

  lemma MirroredAdd(q: map<Pair, real>, a: int, b: int, d: real)
    requires Mirrored(q) && NoDiagonal(q) && a != b
    ensures Mirrored(AddAt(AddAt(q, (a, b), d), (b, a), d)) && NoDiagonal(AddAt(AddAt(q, (a, b), d), (b, a), d))
  {
    var next := AddAt(AddAt(q, (a, b), d), (b, a), d);
    forall u, v
      ensures EntryAt(next, (u, v)) == EntryAt(q, (u, v)) + if (u == a && v == b) || (u == b && v == a) then d else 0.0
    {
    }
  }

  /** Enters one term. */
  method SplitTerm(t: set<int>, c: real, r0: seq<real>, q0: map<Pair, real>) returns (ok: bool, r: seq<real>, q: map<Pair, real>)
    requires (forall v | v in t :: 0 <= v < |r0|) && Mirrored(q0) && NoDiagonal(q0)
    ensures |r| == |r0| && Mirrored(q) && NoDiagonal(q) && (ok <==> |t| == 1 || |t| == 2)
    ensures ok ==> forall x: set<int> :: Total(r, q, x) == Total(r0, q0, x) + if t <= x then c else 0.0
  {
    r, q := r0, q0;
    ok := true;
    if |t| == 1 {
      var a := First(t);
      r := r[a := r[a] + c];
      OneVariable(t, a, c, r0, r, q);
    } else if |t| == 2 {
      var a := First(t);
      var b := First(t - {a});
      q := AddAt(q, (a, b), c / 2.0);
      q := AddAt(q, (b, a), c / 2.0);
      TwoVariables(t, a, b, c, r, q0, q);
      MirroredAdd(q0, a, b, c / 2.0);
    } else {
      ok := false;
    }
  }

  /** Linear and quadratic coefficients of terms with one or two variables; each quadratic one is halved and entered twice. */
  method SplitTerms(terms: seq<set<int>>, coeffs: seq<real>, n: nat) returns (ok: bool, r: seq<real>, q: map<Pair, real>)
    requires |terms| == |coeffs| && forall i, v | 0 <= i < |terms| && v in terms[i] :: 0 <= v < n
    ensures |r| == n
    ensures ok <==> forall i | 0 <= i < |terms| :: |terms[i]| == 1 || |terms[i]| == 2
    ensures ok ==> forall x: set<int> :: Total(r, q, x) == TermSum(coeffs, terms, x)
    ensures Mirrored(q) && NoDiagonal(q)
  {
    r, q := seq(n, _ => 0.0), map[];
    forall x: set<int>
      ensures Total(r, q, x) == 0.0
    {
      LinearSumZero(r, x);
      MapSumEmpty(Within(x));
    }
    for i := 0 to |terms|
      invariant |r| == n && Mirrored(q) && NoDiagonal(q)
      invariant forall j | 0 <= j < i :: |terms[j]| == 1 || |terms[j]| == 2
      invariant forall x: set<int> :: Total(r, q, x) == TermSum(coeffs[..i], terms[..i], x)
    {
      ghost var r0, q0 := r, q;
      ok, r, q := SplitTerm(terms[i], coeffs[i], r, q);
      if !ok {
        return;
      }
      forall x: set<int>
        ensures Total(r, q, x) == TermSum(coeffs[..i + 1], terms[..i + 1], x)
      {
        assert Total(r0, q0, x) == TermSum(coeffs[..i], terms[..i], x);
        TermSumStep(coeffs, terms, i, x);
      }
    }
    ok := true;
    assert coeffs[..|terms|] == coeffs && terms[..|terms|] == terms;
  }

  lemma TermSumStep(coeffs: seq<real>, terms: seq<set<int>>, i: nat, x: set<int>)
    requires |coeffs| == |terms| && i < |terms|
    ensures TermSum(coeffs[..i + 1], terms[..i + 1], x) ==
            TermSum(coeffs[..i], terms[..i], x) + if terms[i] <= x then coeffs[i] else 0.0
  {
    assert coeffs[..i + 1][..i] == coeffs[..i] && terms[..i + 1][..i] == terms[..i];
  }

  /** The element a `std::set` iterator visits first. */
  method First(t: set<int>) returns (a: int)
    requires t != {}
    ensures a in t && forall v | v in t :: a <= v
    ensures |t - {a}| == |t| - 1
  {
    Inhabited(t);
    a :| a in t;
    var rest := t - {a};
    while rest != {}
      invariant rest <= t && a in t && forall v | v in t && v !in rest :: a <= v
    {
      Inhabited(rest);
      var v :| v in rest;
      if v < a {
        a := v;
      }
      rest := rest - {v};
    }
  }

  lemma OneVariable(t: set<int>, a: int, c: real, r0: seq<real>, r: seq<real>, q: map<Pair, real>)
    requires |t| == 1 && a in t && 0 <= a < |r0| && r == r0[a := r0[a] + c]
    ensures forall x: set<int> :: Total(r, q, x) == Total(r0, q, x) + if t <= x then c else 0.0
  {
    assert |t - {a}| == 0;
    assert forall v | v in t :: v == a || v in t - {a};
    forall x: set<int>
      ensures Total(r, q, x) == Total(r0, q, x) + if t <= x then c else 0.0
    {
      LinearSumAdd(r0, r, a, c, x);
    }
  }

  lemma TwoVariables(t: set<int>, a: int, b: int, c: real, r: seq<real>, q0: map<Pair, real>, q: map<Pair, real>)
    requires |t| == 2 && a in t && b in t && a != b
    requires q == AddAt(AddAt(q0, (a, b), c / 2.0), (b, a), c / 2.0)
    ensures forall x: set<int> :: Total(r, q, x) == Total(r, q0, x) + if t <= x then c else 0.0
  {
    forall x: set<int>
      ensures Total(r, q, x) == Total(r, q0, x) + if t <= x then c else 0.0
    {
      PairWithin(t, a, b, x);
      MapSumAdd(q0, (a, b), c / 2.0, Within(x));
      MapSumAdd(AddAt(q0, (a, b), c / 2.0), (b, a), c / 2.0, Within(x));
    }
  }

  lemma PairWithin(t: set<int>, a: int, b: int, x: set<int>)
    requires |t| == 2 && a in t && b in t && a != b
    ensures t <= x <==> a in x && b in x
  {
    assert |t - {a} - {b}| == 0;
    assert forall v | v in t :: v == a || v == b || v in t - {a} - {b};
  }

  // ---------------------------------------------------------------- the penalty for wrong ancillas

  /** 3z - 2za - 2zb + ab */
  ghost function AndPenalty(m: Ancilla, x: set<int>): int {
    (if m.id in x then 3 else 0)
    - (if m.id in x && m.left in x then 2 else 0)
    - (if m.id in x && m.right in x then 2 else 0)
    + (if m.left in x && m.right in x then 1 else 0)
  }

  ghost function Penalty(mapping: seq<Ancilla>, x: set<int>): int {
    if mapping == [] then 0 else Penalty(mapping[..|mapping| - 1], x) + AndPenalty(mapping[|mapping| - 1], x)
  }

  /** The penalty vanishes exactly when every ancilla is its product, and is at least one otherwise. */
  lemma {:induction false} PenaltyMeansConsistent(mapping: seq<Ancilla>, x: set<int>)
    ensures Penalty(mapping, x) >= 0
    ensures Penalty(mapping, x) == 0 <==> Consistent(x, mapping)
  {
    if mapping != [] {
      var l := |mapping| - 1;
      PenaltyMeansConsistent(mapping[..l], x);
      assert Consistent(x, mapping) <==> Consistent(x, mapping[..l]) && AndPenalty(mapping[l], x) == 0 by {
        assert forall m | m in mapping :: m in mapping[..l] || m == mapping[l];
        assert mapping[l] in mapping;
        assert forall m | m in mapping[..l] :: m in mapping;
      }
    }
  }

  /** Adds the gadgets: the matrix QAnd on the three variables of every ancilla, and 3 pw on the ancilla itself. */
  method AddPenalties(mapping: seq<Ancilla>, pw: real, r0: seq<real>, q0: map<Pair, real>) returns (r: seq<real>, q: map<Pair, real>)
    requires forall k | 0 <= k < |mapping| :: 0 <= mapping[k].left < mapping[k].right < mapping[k].id < |r0|
    requires Mirrored(q0) && NoDiagonal(q0)
    ensures |r| == |r0| && Mirrored(q) && NoDiagonal(q)
    ensures forall x: set<int> :: Total(r, q, x) == Total(r0, q0, x) + Times(Penalty(mapping, x), pw)
  {
    r, q := r0, q0;
    for k := 0 to |mapping|
      invariant |r| == |r0| && Mirrored(q) && NoDiagonal(q)
      invariant forall x: set<int> :: Total(r, q, x) == Total(r0, q0, x) + Times(Penalty(mapping[..k], x), pw)
    {
      assert mapping[..k + 1][..k] == mapping[..k];
      ghost var r1, q1 := r, q;
      r, q := AddGadget(mapping[k], pw, r, q);
      forall x: set<int>
        ensures Total(r, q, x) == Total(r0, q0, x) + Times(Penalty(mapping[..k + 1], x), pw)
      {
        TimesAdd(Penalty(mapping[..k], x), AndPenalty(mapping[k], x), pw);
        assert Total(r, q, x) == Total(r1, q1, x) + Times(AndPenalty(mapping[k], x), pw);
      }
    }
    assert mapping[..|mapping|] == mapping;
  }

  ghost function Times(n: int, pw: real): real {
    n as real * pw
  }

  lemma TimesAdd(a: int, b: int, pw: real)
    ensures Times(a + b, pw) == Times(a, pw) + Times(b, pw)
  {
    assert (a + b) as real == a as real + b as real;
  }

  /** Entry (i, j) of the matrix of the gadget. */
  function QAnd(i: nat, j: nat, pw: real): real
    requires i < 3 && j < 3
  {
    if i == j then 0.0 else if i == 0 || j == 0 then -pw else pw / 2.0
  }

  function RAnd(i: nat, pw: real): real {
    if i == 0 then 3.0 * pw else 0.0
  }

  /** What the first rows, and in the next row the first columns, of the gadget add. */
  ghost function GadgetTo(ids: seq<int>, i: nat, j: nat, pw: real, x: set<int>): real
    requires |ids| == 3 && i <= 3 && j <= 3 && (i == 3 ==> j == 0)
    decreases i, j
  {
    if j > 0 then GadgetTo(ids, i, j - 1, pw, x) + Signed(QAnd(i, j - 1, pw), Within(x)((ids[i], ids[j - 1])))
    else if i > 0 then GadgetTo(ids, i - 1, 3, pw, x) + if ids[i - 1] in x then RAnd(i - 1, pw) else 0.0
    else 0.0
  }

  ghost function Place(ids: seq<int>, v: int): (i: nat)
    requires |ids| == 3
  {
    if v == ids[0] then 0 else if v == ids[1] then 1 else if v == ids[2] then 2 else 3
  }

  /** What the first rows, and in the next row the first columns, of the gadget add to one entry. */
  ghost function AddedTo(ids: seq<int>, i: nat, j: nat, pw: real, u: int, v: int): real
    requires |ids| == 3
  {
    var a, b := Place(ids, u), Place(ids, v);
    if a < 3 && b < 3 && (a < i || (a == i && b < j)) then QAnd(a, b, pw) else 0.0
  }

  ghost predicate GadgetAdded(q0: map<Pair, real>, q: map<Pair, real>, ids: seq<int>, i: nat, j: nat, pw: real)
    requires |ids| == 3
  {
    forall u, v :: EntryAt(q, (u, v)) == EntryAt(q0, (u, v)) + AddedTo(ids, i, j, pw, u, v)
  }

  lemma GadgetEntry(q0: map<Pair, real>, q: map<Pair, real>, ids: seq<int>, i: nat, j: nat, pw: real)
    requires |ids| == 3 && ids[0] != ids[1] && ids[0] != ids[2] && ids[1] != ids[2] && i < 3 && j < 3
    requires GadgetAdded(q0, q, ids, i, j, pw)
    ensures GadgetAdded(q0, AddAt(q, (ids[i], ids[j]), QAnd(i, j, pw)), ids, i, j + 1, pw)
  {
    var next := AddAt(q, (ids[i], ids[j]), QAnd(i, j, pw));
    forall u, v
      ensures EntryAt(next, (u, v)) == EntryAt(q0, (u, v)) + AddedTo(ids, i, j + 1, pw, u, v)
    {
      assert EntryAt(q, (u, v)) == EntryAt(q0, (u, v)) + AddedTo(ids, i, j, pw, u, v);
    }
  }

  lemma GadgetRowDone(q0: map<Pair, real>, q: map<Pair, real>, ids: seq<int>, i: nat, pw: real)
    requires |ids| == 3 && i < 3 && GadgetAdded(q0, q, ids, i, 3, pw)
    ensures GadgetAdded(q0, q, ids, i + 1, 0, pw)
  {
    forall u, v
      ensures EntryAt(q, (u, v)) == EntryAt(q0, (u, v)) + AddedTo(ids, i + 1, 0, pw, u, v)
    {
      assert EntryAt(q, (u, v)) == EntryAt(q0, (u, v)) + AddedTo(ids, i, 3, pw, u, v);
    }
  }

  lemma GadgetMirrored(q0: map<Pair, real>, q: map<Pair, real>, ids: seq<int>, pw: real)
    requires |ids| == 3 && GadgetAdded(q0, q, ids, 3, 0, pw) && Mirrored(q0) && NoDiagonal(q0)
    ensures Mirrored(q) && NoDiagonal(q)
  {
    forall u, v
      ensures EntryAt(q, (u, v)) == EntryAt(q, (v, u))
    {
      assert AddedTo(ids, 3, 0, pw, u, v) == AddedTo(ids, 3, 0, pw, v, u);
    }
  }

  method AddGadget(m: Ancilla, pw: real, r0: seq<real>, q0: map<Pair, real>) returns (r: seq<real>, q: map<Pair, real>)
    requires 0 <= m.left < m.right < m.id < |r0| && Mirrored(q0) && NoDiagonal(q0)
    ensures |r| == |r0| && Mirrored(q) && NoDiagonal(q)
    ensures forall x: set<int> :: Total(r, q, x) == Total(r0, q0, x) + Times(AndPenalty(m, x), pw)
  {
    var ids := [m.id, m.left, m.right];
    r, q := r0, q0;
    for i := 0 to 3
      invariant |r| == |r0| && GadgetAdded(q0, q, ids, i, 0, pw)
      invariant forall x: set<int> :: Total(r, q, x) == Total(r0, q0, x) + GadgetTo(ids, i, 0, pw, x)
    {
      for j := 0 to 3
        invariant |r| == |r0| && GadgetAdded(q0, q, ids, i, j, pw)
        invariant forall x: set<int> :: Total(r, q, x) == Total(r0, q0, x) + GadgetTo(ids, i, j, pw, x)
      {
        ghost var q1 := q;
        GadgetEntry(q0, q, ids, i, j, pw);
        q := AddAt(q, (ids[i], ids[j]), QAnd(i, j, pw));
        forall x: set<int>
          ensures Total(r, q, x) == Total(r0, q0, x) + GadgetTo(ids, i, j + 1, pw, x)
        {
          MapSumAdd(q1, (ids[i], ids[j]), QAnd(i, j, pw), Within(x));
          assert Total(r, q1, x) == Total(r0, q0, x) + GadgetTo(ids, i, j, pw, x);
        }
      }
      GadgetRowDone(q0, q, ids, i, pw);
      ghost var r1 := r;
      r := r[ids[i] := r[ids[i]] + RAnd(i, pw)];
      forall x: set<int>
        ensures Total(r, q, x) == Total(r0, q0, x) + GadgetTo(ids, i + 1, 0, pw, x)
      {
        LinearSumAdd(r1, r, ids[i], RAnd(i, pw), x);
        assert Total(r1, q, x) == Total(r0, q0, x) + GadgetTo(ids, i, 3, pw, x);
      }
    }
    GadgetMirrored(q0, q, ids, pw);
    forall x: set<int>
      ensures Total(r, q, x) == Total(r0, q0, x) + Times(AndPenalty(m, x), pw)
    {
      GadgetIsPenalty(m, pw, x);
    }
  }

  lemma GadgetRow(ids: seq<int>, i: nat, pw: real, x: set<int>)
    requires |ids| == 3 && i < 3
    ensures GadgetTo(ids, i + 1, 0, pw, x) == GadgetTo(ids, i, 0, pw, x)
              + Signed(QAnd(i, 0, pw), Within(x)((ids[i], ids[0]))) + Signed(QAnd(i, 1, pw), Within(x)((ids[i], ids[1])))
              + Signed(QAnd(i, 2, pw), Within(x)((ids[i], ids[2]))) + if ids[i] in x then RAnd(i, pw) else 0.0
  {
    assert GadgetTo(ids, i, 1, pw, x) == GadgetTo(ids, i, 0, pw, x) + Signed(QAnd(i, 0, pw), Within(x)((ids[i], ids[0])));
    assert GadgetTo(ids, i, 2, pw, x) == GadgetTo(ids, i, 1, pw, x) + Signed(QAnd(i, 1, pw), Within(x)((ids[i], ids[1])));
    assert GadgetTo(ids, i, 3, pw, x) == GadgetTo(ids, i, 2, pw, x) + Signed(QAnd(i, 2, pw), Within(x)((ids[i], ids[2])));
  }

  lemma GadgetIsPenalty(m: Ancilla, pw: real, x: set<int>)
    ensures GadgetTo([m.id, m.left, m.right], 3, 0, pw, x) == Times(AndPenalty(m, x), pw)
  {
    var ids := [m.id, m.left, m.right];
    GadgetRow(ids, 0, pw, x);
    GadgetRow(ids, 1, pw, x);
    GadgetRow(ids, 2, pw, x);
    assert GadgetTo(ids, 0, 0, pw, x) == 0.0;
  }

  // ---------------------------------------------------------------- the result

  method MaxAbs(q: map<Pair, real>) returns (pw: real)
    ensures pw >= 0.0 && (forall k | k in q :: AbsReal(q[k]) <= pw) && (pw == 0.0 || exists k :: k in q && AbsReal(q[k]) == pw)
  {
    pw := 0.0;
    var rest := q.Keys;
    while rest != {}
      invariant rest <= q.Keys && pw >= 0.0
      invariant forall k | k in q && k !in rest :: AbsReal(q[k]) <= pw
      invariant pw == 0.0 || exists k :: k in q && AbsReal(q[k]) == pw
    {
      var k :| k in rest;
      if pw < AbsReal(q[k]) {
        pw := AbsReal(q[k]);
      }
      rest := rest - {k};
    }
  }

  /** Both orders of a pair carry the same coefficient, and no coefficient is zero. */
  ghost predicate Canonical(z: map<Pair, real>) {
    (forall k: Pair | k in z :: z[k] != 0.0) && Mirrored(z)
  }

  /** The entries of `q` that are not zero and not among `rest`. */
  ghost predicate NonZeroBut(z: map<Pair, real>, q: map<Pair, real>, rest: set<Pair>) {
    && (forall k: Pair | k in z :: z[k] != 0.0)
    && (forall k: Pair :: EntryAt(z, k) == if k in rest then 0.0 else EntryAt(q, k))
  }

  /** The first `i` linear coefficients are on the diagonal. */
  ghost predicate OnDiagonal(z: map<Pair, real>, q: map<Pair, real>, r: seq<real>, i: nat)
    requires i <= |r|
  {
    && (forall k: Pair | k in z :: z[k] != 0.0)
    && (forall u, v :: EntryAt(z, (u, v)) == EntryAt(q, (u, v)) + if 0 <= u == v < i then r[u] else 0.0)
  }

  lemma DiagonalNext(z0: map<Pair, real>, z: map<Pair, real>, q: map<Pair, real>, r: seq<real>, i: nat)
    requires i < |r| && OnDiagonal(z0, q, r, i) && NoDiagonal(q)
    requires z == if r[i] != 0.0 then AddAt(z0, (i, i), r[i]) else z0
    ensures OnDiagonal(z, q, r, i + 1)
  {
    assert EntryAt(z0, (i, i)) == 0.0;
    forall u, v
      ensures EntryAt(z, (u, v)) == EntryAt(q, (u, v)) + if 0 <= u == v < i + 1 then r[u] else 0.0
    {
      assert EntryAt(z0, (u, v)) == EntryAt(q, (u, v)) + if 0 <= u == v < i then r[u] else 0.0;
    }
  }

  /** Quadratic and linear coefficients in one map, zero coefficients left out. */
  method Combine(r: seq<real>, q: map<Pair, real>) returns (z: map<Pair, real>)
    requires Mirrored(q) && NoDiagonal(q)
    ensures forall x: set<int> :: Energy(z, x) == Total(r, q, x)
    ensures Canonical(z)
  {
    z := CopyNonZero(q);
    forall x: set<int>
      ensures Energy(z, x) == LinearSum(r[..0], x) + Energy(q, x)
    {
    }
    for i := 0 to |r|
      invariant OnDiagonal(z, q, r, i)
      invariant forall x: set<int> :: Energy(z, x) == LinearSum(r[..i], x) + Energy(q, x)
    {
      assert r[..i + 1][..i] == r[..i];
      ghost var z0 := z;
      if r[i] != 0.0 {
        z := AddAt(z, (i, i), r[i]);
      }
      DiagonalNext(z0, z, q, r, i);
      forall x: set<int>
        ensures Energy(z, x) == LinearSum(r[..i + 1], x) + Energy(q, x)
      {
        MapSumAdd(z0, (i, i), r[i], Within(x));
      }
    }
    assert r[..|r|] == r;
  }

  method CopyNonZero(q: map<Pair, real>) returns (z: map<Pair, real>)
    ensures NonZeroBut(z, q, {})
    ensures forall x: set<int> :: Energy(z, x) == Energy(q, x)
  {
    z := map[];
    var rest := q.Keys;
    CombineStart(q);
    while rest != {}
      invariant rest <= q.Keys && NonZeroBut(z, q, rest)
      invariant forall x: set<int> :: Energy(z, x) + MapSumOver(rest, q, Within(x)) == Energy(q, x)
    {
      var k: Pair :| k in rest;
      ghost var z0 := z;
      if q[k] != 0.0 {
        z := AddAt(z, k, q[k]);
      }
      CopyNext(z0, z, q, rest, k);
      forall x: set<int>
        ensures Energy(z, x) + MapSumOver(rest - {k}, q, Within(x)) == Energy(q, x)
      {
        MapSumTake(rest, k, q, Within(x));
        MapSumAdd(z0, k, q[k], Within(x));
      }
      rest := rest - {k};
    }
    CombineMiddle(z, q);
  }

  lemma CopyNext(z0: map<Pair, real>, z: map<Pair, real>, q: map<Pair, real>, rest: set<Pair>, k: Pair)
    requires NonZeroBut(z0, q, rest) && k in rest && k in q
    requires z == if q[k] != 0.0 then AddAt(z0, k, q[k]) else z0
    ensures NonZeroBut(z, q, rest - {k})
  {
    assert EntryAt(z0, k) == 0.0;
  }

  lemma CombineStart(q: map<Pair, real>)
    ensures forall x: set<int> :: Energy(map[], x) + MapSumOver(q.Keys, q, Within(x)) == Energy(q, x)
  {
    forall x: set<int>
      ensures Energy(map[], x) + MapSumOver(q.Keys, q, Within(x)) == Energy(q, x)
    {
      MapSumEmpty(Within(x));
    }
  }

  lemma CombineMiddle(z: map<Pair, real>, q: map<Pair, real>)
    requires forall x: set<int> :: Energy(z, x) + MapSumOver({}, q, Within(x)) == Energy(q, x)
    ensures forall x: set<int> :: Energy(z, x) == Energy(q, x)
  {
    forall x: set<int>
      ensures Energy(z, x) == Energy(q, x)
    {
      assert MapSumOver({}, q, Within(x)) == 0.0;
    }
  }

  datatype Quadratic = Quadratic(newTerms: seq<set<int>>, mapping: seq<Ancilla>, q: map<Pair, real>)

  predicate IsPowerOfTwo(n: nat) {
    n == 1 || (n > 0 && n % 2 == 0 && IsPowerOfTwo(n / 2))
  }

  lemma {:induction false} PowerOfTwo(n: nat)
    ensures IsPowerOfTwo(n) <==> exists b: nat :: Pow2(b) == n
  {
    if n == 1 {
      assert Pow2(0) == 1;
    } else if n > 0 && n % 2 == 0 {
      PowerOfTwo(n / 2);
      if b: nat :| Pow2(b) == n / 2 {
        assert Pow2(b + 1) == n;
      }
      if b: nat :| Pow2(b) == n {
        assert Pow2(b - 1) == n / 2;
      }
    }
  }

  method CountVariables(n: nat) returns (numVars: nat)
    requires IsPowerOfTwo(n)
    ensures Pow2(numVars) == n
  {
    PowerOfTwo(n);
    ghost var b: nat :| Pow2(b) == n;
    numVars := 0;
    while Pow2(numVars) != n
      invariant numVars <= b
      decreases b - numVars
    {
      numVars := numVars + 1;
    }
  }

  /** The table as a polynomial: all its coefficients `c`, and the terms and coefficients that are kept. */
  datatype Expansion = Expansion(numVars: nat, c: seq<real>, coeffs: seq<real>, terms: seq<set<int>>)

  ghost predicate Expands(f: seq<real>, e: Expansion) {
    && |f| == |e.c| == Pow2(e.numVars)
    && (forall i: nat | i < |f| :: e.c[i] == RowSum(e.numVars, i, f, |f|))
    && |e.coeffs| == |e.terms| == |KeptTo(e.c, |e.c|)|
    && (forall t: nat | t < |e.terms| :: e.terms[t] == Bits(e.numVars, KeptTo(e.c, |e.c|)[t]) && e.coeffs[t] == e.c[KeptTo(e.c, |e.c|)[t]])
    && (forall x: set<int> :: TermSum(e.coeffs, e.terms, x) == KeptSum(e.c, e.numVars, x, |e.c|))
    && (forall t | 0 <= t < |e.terms| :: e.terms[t] != {} && forall v | v in e.terms[t] :: 0 <= v < e.numVars)
  }

  /** The terms of the result are those of the expansion with ancillas put in, numbered after the largest variable
  that occurs; the energy is their sum plus `pw` for every unit of penalty. */
  ghost predicate Represents(z: Quadratic, e: Expansion, maxVar: int, pw: real) {
    && |e.coeffs| == |e.terms|
    && IsMaxVar(e.terms, maxVar)
    && Reduces(e.terms, z.newTerms, z.mapping, maxVar + 1)
    && (forall x: set<int> :: Energy(z.q, x) == TermSum(e.coeffs, z.newTerms, x) + Times(Penalty(z.mapping, x), pw))
    && Canonical(z.q)
  }

  method Expand(f: seq<real>) returns (e: Expansion)
    requires IsPowerOfTwo(|f|) && f[0] == 0.0
    ensures Expands(f, e)
  {
    var n := CountVariables(|f|);
    var c := Coefficients(f, n);
    FirstCoefficient(f, n);
    var nonZeroIndex, terms := CollectTerms(c, n);
    TermsOfBits(c, n, nonZeroIndex, terms);
    var coeffs := seq(|nonZeroIndex|, t requires 0 <= t < |nonZeroIndex| => if nonZeroIndex[t] < |c| then c[nonZeroIndex[t]] else 0.0);
    forall x: set<int>
      ensures TermSum(coeffs, terms, x) == KeptSum(c, n, x, |c|)
    {
      KeptSumIsIndexSum(c, n, x, |c|);
      IndexSumIsTermSum(c, n, nonZeroIndex, coeffs, terms, x);
    }
    e := Expansion(n, c, coeffs, terms);
  }

  method ChooseWeight(penaltyWeight: Option<real>, q: map<Pair, real>) returns (pw: real)
    ensures penaltyWeight.Some? ==> pw == penaltyWeight.value
    ensures penaltyWeight.None? ==> pw >= 0.0 && forall k | k in q :: 10.0 * AbsReal(q[k]) <= pw
    ensures penaltyWeight.None? ==> pw == 0.0 || exists k :: k in q && pw == 10.0 * AbsReal(q[k])
  {
    if penaltyWeight.None? {
      pw := MaxAbs(q);
      pw := pw * 10.0;
    } else {
      pw := penaltyWeight.value;
    }
  }

  /** What two variables contribute together beyond what each contributes alone. */
  ghost function Interaction(coeffs: seq<real>, terms: seq<set<int>>, a: int, b: int): real
    requires |coeffs| == |terms|
  {
    TermSum(coeffs, terms, {a, b}) - TermSum(coeffs, terms, {a}) - TermSum(coeffs, terms, {b})
  }

  /** The default: ten times the largest entry of the symmetric matrix, which holds each interaction in two halves. */
  ghost predicate IsDefaultWeight(coeffs: seq<real>, terms: seq<set<int>>, pw: real)
    requires |coeffs| == |terms|
  {
    && pw >= 0.0
    && (forall a, b | a != b :: 5.0 * AbsReal(Interaction(coeffs, terms, a, b)) <= pw)
    && (pw == 0.0 || exists a, b :: a != b && 5.0 * AbsReal(Interaction(coeffs, terms, a, b)) == pw)
  }

  lemma {:induction false} LinearPair(r: seq<real>, a: int, b: int)
    requires a != b
    ensures LinearSum(r, {a, b}) == LinearSum(r, {a}) + LinearSum(r, {b})
  {
    if r != [] {
      LinearPair(r[..|r| - 1], a, b);
    }
  }

  lemma {:induction false} NothingWithin(rest: set<Pair>, q: map<Pair, real>, x: set<int>)
    requires rest <= q.Keys && forall k: Pair | k in rest :: Within(x)(k) == 0
    ensures MapSumOver(rest, q, Within(x)) == 0.0
    decreases |rest|
  {
    if rest != {} {
      var k: Pair :| k in rest;
      MapSumTake(rest, k, q, Within(x));
      NothingWithin(rest - {k}, q, x);
    }
  }

  lemma Without(rest: set<Pair>, q: map<Pair, real>, k: Pair, x: set<int>)
    requires rest <= q.Keys && (k in q ==> k in rest) && k.0 in x && k.1 in x
    ensures MapSumOver(rest, q, Within(x)) == MapSumOver(rest - {k}, q, Within(x)) + EntryAt(q, k)
  {
    if k in rest {
      MapSumTake(rest, k, q, Within(x));
    } else {
      assert rest - {k} == rest;
    }
  }

  /** The quadratic form at one variable is its diagonal entry. */
  lemma EnergyOfOne(q: map<Pair, real>, a: int)
    ensures Energy(q, {a}) == EntryAt(q, (a, a))
  {
    Without(q.Keys, q, (a, a), {a});
    NothingWithin(q.Keys - {(a, a)}, q, {a});
  }

  lemma EnergyOfTwo(q: map<Pair, real>, a: int, b: int)
    requires a != b
    ensures Energy(q, {a, b}) == EntryAt(q, (a, a)) + EntryAt(q, (b, b)) + EntryAt(q, (a, b)) + EntryAt(q, (b, a))
  {
    var rest0 := q.Keys;
    var rest1 := rest0 - {(a, a)};
    var rest2 := rest1 - {(b, b)};
    var rest3 := rest2 - {(a, b)};
    Without(rest0, q, (a, a), {a, b});
    Without(rest1, q, (b, b), {a, b});
    Without(rest2, q, (a, b), {a, b});
    Without(rest3, q, (b, a), {a, b});
    NothingWithin(rest3 - {(b, a)}, q, {a, b});
  }

  /** Two matrices in this form with the same energy everywhere are the same. */
  lemma CanonicalIsUnique(y: map<Pair, real>, z: map<Pair, real>)
    requires Canonical(y) && Canonical(z) && forall x: set<int> :: Energy(y, x) == Energy(z, x)
    ensures y == z
  {
    forall k: Pair
      ensures EntryAt(y, k) == EntryAt(z, k)
    {
      EnergyOfOne(y, k.0);
      EnergyOfOne(z, k.0);
      if k.0 != k.1 {
        EnergyOfOne(y, k.1);
        EnergyOfOne(z, k.1);
        EnergyOfTwo(y, k.0, k.1);
        EnergyOfTwo(z, k.0, k.1);
      }
    }
    SameEntries(y, z);
  }

  lemma SameEntries(y: map<Pair, real>, z: map<Pair, real>)
    requires (forall k: Pair | k in y :: y[k] != 0.0) && (forall k: Pair | k in z :: z[k] != 0.0)
    requires forall k: Pair :: EntryAt(y, k) == EntryAt(z, k)
    ensures y == z
  {
    forall k: Pair
      ensures (k in y <==> k in z) && (k in y ==> y[k] == z[k])
    {
      assert EntryAt(y, k) == EntryAt(z, k);
    }
  }

  lemma InteractionIsEntry(coeffs: seq<real>, terms: seq<set<int>>, r: seq<real>, q: map<Pair, real>, a: int, b: int)
    requires |coeffs| == |terms| && (forall x: set<int> :: Total(r, q, x) == TermSum(coeffs, terms, x))
    requires Mirrored(q) && NoDiagonal(q) && a != b
    ensures Interaction(coeffs, terms, a, b) == 2.0 * EntryAt(q, (a, b))
  {
    assert Total(r, q, {a, b}) == TermSum(coeffs, terms, {a, b});
    assert Total(r, q, {a}) == TermSum(coeffs, terms, {a}) && Total(r, q, {b}) == TermSum(coeffs, terms, {b});
    LinearPair(r, a, b);
    EnergyOfOne(q, a);
    EnergyOfOne(q, b);
    EnergyOfTwo(q, a, b);
  }

  lemma LargestInteraction(coeffs: seq<real>, terms: seq<set<int>>, r: seq<real>, q: map<Pair, real>, pw: real)
    requires |coeffs| == |terms| && (forall x: set<int> :: Total(r, q, x) == TermSum(coeffs, terms, x))
    requires Mirrored(q) && NoDiagonal(q) && pw >= 0.0
    requires forall k | k in q :: 10.0 * AbsReal(q[k]) <= pw
    requires pw == 0.0 || exists k :: k in q && pw == 10.0 * AbsReal(q[k])
    ensures IsDefaultWeight(coeffs, terms, pw)
  {
    forall a, b | a != b
      ensures 5.0 * AbsReal(Interaction(coeffs, terms, a, b)) <= pw
    {
      InteractionIsEntry(coeffs, terms, r, q, a, b);
    }
    if pw != 0.0 {
      var k :| k in q && pw == 10.0 * AbsReal(q[k]);
      assert EntryAt(q, (k.0, k.1)) != 0.0;
      InteractionIsEntry(coeffs, terms, r, q, k.0, k.1);
    }
  }

  /** Everything after the reduction: split, add the penalties, combine. */
  method Assemble(e: Expansion, red: TermsResult, penaltyWeight: Option<real>, ghost maxVar: int)
    returns (z: map<Pair, real>, ok: bool, ghost pw: real)
    requires |e.coeffs| == |e.terms|
    requires IsMaxVar(e.terms, maxVar) && Reduces(e.terms, red.newTerms, red.mapping, maxVar + 1)
    requires forall t | 0 <= t < |e.terms| :: e.terms[t] != {} && forall v | v in e.terms[t] :: 0 <= v < e.numVars
    requires forall i | 0 <= i < |e.terms| :: if |e.terms[i]| <= 2 then red.newTerms[i] == e.terms[i] else |red.newTerms[i]| == 2
    requires |red.mapping| <= TotalSize(e.terms)
    ensures ok
    ensures forall x: set<int> :: Energy(z, x) == TermSum(e.coeffs, red.newTerms, x) + Times(Penalty(red.mapping, x), pw)
    ensures penaltyWeight.Some? ==> pw == penaltyWeight.value
    ensures penaltyWeight.None? ==> IsDefaultWeight(e.coeffs, red.newTerms, pw)
    ensures Canonical(z)
  {
    var newNumVars := e.numVars + |red.mapping|;
    VariablesInRange(e.terms, e.numVars, maxVar, red);
    TermSizes(e.terms, red);
    var r, q;
    ok, r, q := SplitTerms(red.newTerms, e.coeffs, newNumVars);
    var weight := ChooseWeight(penaltyWeight, q);
    pw := weight;
    if penaltyWeight.None? {
      LargestInteraction(e.coeffs, red.newTerms, r, q, pw);
    }
    if newNumVars > e.numVars {
      assert e.terms != [];
      MappingInRange(e.terms, e.numVars, maxVar, red);
      r, q := AddPenalties(red.mapping, weight, r, q);
    } else {
      assert red.mapping == [] && forall x: set<int> :: Penalty(red.mapping, x) == 0;
      assert Times(0, pw) == 0.0;
    }
    z := Combine(r, q);
  }

  lemma MappingInRange(terms: seq<set<int>>, n: nat, maxVar: int, red: TermsResult)
    requires IsMaxVar(terms, maxVar) && Reduces(terms, red.newTerms, red.mapping, maxVar + 1)
    requires maxVar < n
    ensures forall m | m in red.mapping :: 0 <= m.left < m.right < m.id < n + |red.mapping|
  {
  }

  method MakeQuadratic(f: seq<real>, penaltyWeight: Option<real>)
    returns (r: Result<Quadratic>, ghost e: Expansion, ghost maxVar: int, ghost pw: real)
    // the exception for terms of degree above two is never reached
    ensures r.Failure? <==> !IsPowerOfTwo(|f|) || f[0] != 0.0
    ensures r.Success? ==> Expands(f, e) && Represents(r.value, e, maxVar, pw)
    ensures penaltyWeight.Some? && r.Success? ==> pw == penaltyWeight.value
    ensures penaltyWeight.None? && r.Success? ==> IsDefaultWeight(e.coeffs, r.value.newTerms, pw)
    ensures r.Success? ==> IsReduction(e.terms, maxVar, TermsResult(r.value.newTerms, r.value.mapping))
  {
    e, maxVar, pw := Expansion(0, [], [], []), 0, 0.0;
    if !IsPowerOfTwo(|f|) {
      return Failure("f's length is not power of 2"), e, maxVar, pw;
    }
    if f[0] != 0.0 {
      return Failure("sapi_makeQuadratic expects the first element of f, the constant to be zero"), e, maxVar, pw;
    }
    var expansion := Expand(f);
    e := expansion;
    var red;
    red, maxVar := ReduceDegree(expansion.terms);
    var z, ok;
    z, ok, pw := Assemble(expansion, red.value, penaltyWeight, maxVar);
    if !ok {
      return Failure("f should only have pairwise interactions"), e, maxVar, pw;
    }
    r := Success(Quadratic(red.value.newTerms, red.value.mapping, z));
  }

  lemma FirstCoefficient(f: seq<real>, b: nat)
    requires |f| == Pow2(b) && f[0] == 0.0
    ensures RowSum(b, 0, f, |f|) == 0.0
  {
    FirstRow(f, b, |f|);
  }

  lemma {:induction false} FirstRow(f: seq<real>, b: nat, k: nat)
    requires |f| == Pow2(b) && f[0] == 0.0 && k <= |f|
    ensures RowSum(b, 0, f, k) == 0.0
  {
    if k > 0 {
      FirstRow(f, b, k - 1);
      FirstRowEntry(b, k - 1);
    }
  }

  lemma {:induction false} FirstRowEntry(b: nat, j: nat)
    requires j < Pow2(b)
    ensures j > 0 ==> InvW(b, 0, j) == 0
  {
    if b > 0 && j < Pow2(b - 1) {
      FirstRowEntry(b - 1, j);
    }
  }

  /** The constant is zero, so no kept term is empty; and the terms speak about the variables of the table. */
  lemma TermsOfBits(c: seq<real>, b: nat, index: seq<nat>, terms: seq<set<int>>)
    requires |c| == Pow2(b) && c[0] == 0.0 && index == KeptTo(c, |c|) && |terms| == |index|
    requires forall t | 0 <= t < |terms| :: index[t] < |c| && terms[t] == Bits(b, index[t])
    ensures forall t | 0 <= t < |terms| :: terms[t] != {} && forall v | v in terms[t] :: 0 <= v < b
  {
    forall t | 0 <= t < |terms|
      ensures terms[t] != {} && forall v | v in terms[t] :: 0 <= v < b
    {
      assert index[t] != 0;
      BitsNonEmpty(b, index[t]);
    }
  }

  lemma {:induction false} BitsNonEmpty(b: nat, m: nat)
    requires 0 < m < Pow2(b)
    ensures Bits(b, m) != {}
  {
    var h := Pow2(b - 1);
    if m < h {
      BitsNonEmpty(b - 1, m);
    } else {
      assert b - 1 in Bits(b, m);
    }
  }

  lemma VariablesInRange(terms: seq<set<int>>, n: nat, maxVar: int, red: TermsResult)
    requires IsMaxVar(terms, maxVar) && Reduces(terms, red.newTerms, red.mapping, maxVar + 1)
    requires forall t | 0 <= t < |terms| :: terms[t] != {} && forall v | v in terms[t] :: 0 <= v < n
    ensures terms != [] ==> maxVar < n
    ensures forall i, v | 0 <= i < |red.newTerms| && v in red.newTerms[i] :: 0 <= v < n + |red.mapping|
  {
    if terms != [] {
      Inhabited(terms[0]);
      var v :| v in terms[0];
      assert maxVar < n;
    }
  }

  lemma TermSizes(terms: seq<set<int>>, red: TermsResult)
    requires |red.newTerms| == |terms| && forall t | 0 <= t < |terms| :: terms[t] != {}
    requires forall i | 0 <= i < |terms| :: if |terms[i]| <= 2 then red.newTerms[i] == terms[i] else |red.newTerms[i]| == 2
    ensures forall i | 0 <= i < |terms| :: |red.newTerms[i]| == 1 || |red.newTerms[i]| == 2
  {
    forall i | 0 <= i < |terms|
      ensures |red.newTerms[i]| == 1 || |red.newTerms[i]| == 2
    {
      assert |terms[i]| != 0;
    }
  }

  // ---------------------------------------------------------------- minimising over the ancillas gives the function back

  lemma {:induction false} TermSumSame(coeffs: seq<real>, s: seq<set<int>>, t: seq<set<int>>, x: set<int>, y: set<int>)
    requires |coeffs| == |s| == |t| && forall i | 0 <= i < |s| :: s[i] <= x <==> t[i] <= y
    ensures TermSum(coeffs, s, x) == TermSum(coeffs, t, y)
  {
    if s != [] {
      var l := |s| - 1;
      TermSumSame(coeffs[..l], s[..l], t[..l], x, y);
    }
  }

  lemma {:induction false} TermSumGap(coeffs: seq<real>, s: seq<set<int>>, t: seq<set<int>>, x: set<int>)
    requires |coeffs| == |s| == |t|
    ensures TermSum(coeffs, s, x) >= TermSum(coeffs, t, x) - SumAbs(coeffs)
  {
    if s != [] {
      var l := |s| - 1;
      TermSumGap(coeffs[..l], s[..l], t[..l], x);
    }
  }

  lemma TimesAtLeast(n: int, pw: real)
    requires n >= 1 && pw >= 0.0
    ensures Times(n, pw) >= pw
  {
    TimesAdd(n - 1, 1, pw);
    assert Times(n - 1, pw) >= 0.0;
  }

  /** With a penalty weight above the sum of the absolute coefficients the energy never falls below the polynomial,
  and meets it exactly when every ancilla is the product it stands for. */
  lemma EnergyBound(z: Quadratic, e: Expansion, maxVar: int, pw: real, x: set<int>)
    requires Represents(z, e, maxVar, pw) && pw > SumAbs(e.coeffs)
    ensures Energy(z.q, x) >= TermSum(e.coeffs, e.terms, x)
    ensures Energy(z.q, x) == TermSum(e.coeffs, e.terms, x) <==> Consistent(x, z.mapping)
  {
    PenaltyMeansConsistent(z.mapping, x);
    if Consistent(x, z.mapping) {
      TermSumSame(e.coeffs, z.newTerms, e.terms, x, x);
      assert Times(0, pw) == 0.0;
    } else {
      TermSumGap(e.coeffs, z.newTerms, e.terms, x);
      TimesAtLeast(Penalty(z.mapping, x), pw);
    }
  }

  /** `x` with every ancilla set to its product, in the order the ancillas were introduced. */
  ghost function Extend(x: set<int>, mapping: seq<Ancilla>): set<int> {
    if mapping == [] then x else
      var m, y := mapping[|mapping| - 1], Extend(x, mapping[..|mapping| - 1]);
      if m.left in y && m.right in y then y + {m.id} else y - {m.id}
  }

  lemma {:induction false} ExtendIsConsistent(x: set<int>, mapping: seq<Ancilla>, first: int)
    requires Fresh(mapping, first)
    ensures Consistent(Extend(x, mapping), mapping)
    ensures forall v | v < first :: v in Extend(x, mapping) <==> v in x
  {
    if mapping != [] {
      var l := |mapping| - 1;
      var m, y := mapping[l], Extend(x, mapping[..l]);
      ExtendIsConsistent(x, mapping[..l], first);
      forall a | a in mapping
        ensures a.id in Extend(x, mapping) <==> a.left in Extend(x, mapping) && a.right in Extend(x, mapping)
      {
        if a != m {
          var j :| 0 <= j < |mapping| && mapping[j] == a;
          assert mapping[..l][j] == a;
          assert a in mapping[..l];
        }
      }
    }
  }

  /** The two assignments agree on the variables of the original terms. */
  ghost predicate SameVariables(x: set<int>, y: set<int>, maxVar: int) {
    forall v | v <= maxVar :: v in x <==> v in y
  }

  lemma TermSumOfVariables(coeffs: seq<real>, terms: seq<set<int>>, maxVar: int, x: set<int>, y: set<int>)
    requires |coeffs| == |terms| && IsMaxVar(terms, maxVar) && SameVariables(x, y, maxVar)
    ensures TermSum(coeffs, terms, x) == TermSum(coeffs, terms, y)
  {
    forall i | 0 <= i < |terms|
      ensures terms[i] <= x <==> terms[i] <= y
    {
      assert forall v | v in terms[i] :: v <= maxVar;
      if terms[i] <= x {
        assert forall v | v in terms[i] :: v in x;
      }
      if terms[i] <= y {
        assert forall v | v in terms[i] :: v in y;
      }
    }
    TermSumSame(coeffs, terms, terms, x, y);
  }

  /** The minimum of the energy over the ancillas is the polynomial, and the only minimiser sets each ancilla to its product. */
  lemma MinimumOverAncillas(z: Quadratic, e: Expansion, maxVar: int, pw: real, x: set<int>) returns (best: set<int>)
    requires Represents(z, e, maxVar, pw) && pw > SumAbs(e.coeffs)
    ensures SameVariables(best, x, maxVar) && Consistent(best, z.mapping)
    ensures Energy(z.q, best) == TermSum(e.coeffs, e.terms, x)
    ensures forall y: set<int> | SameVariables(y, x, maxVar) ::
              Energy(z.q, y) >= Energy(z.q, best) && (Energy(z.q, y) == Energy(z.q, best) <==> Consistent(y, z.mapping))
  {
    best := Extend(x, z.mapping);
    ExtendIsConsistent(x, z.mapping, maxVar + 1);
    EnergyBound(z, e, maxVar, pw, best);
    TermSumOfVariables(e.coeffs, e.terms, maxVar, best, x);
    forall y: set<int> | SameVariables(y, x, maxVar)
      ensures Energy(z.q, y) >= Energy(z.q, best)
      ensures Energy(z.q, y) == Energy(z.q, best) <==> Consistent(y, z.mapping)
    {
      EnergyBound(z, e, maxVar, pw, y);
      TermSumOfVariables(e.coeffs, e.terms, maxVar, y, x);
    }
  }

  /** No coefficient was dropped that is not zero. */
  ghost predicate NothingLost(c: seq<real>) {
    forall i | 0 <= i < |c| :: Kept(c[i]) || c[i] == 0.0
  }

  /** That is: no coefficient but 0 lies between -10^-10 and 10^-10. */
  lemma NothingLostMeans(c: seq<real>)
    ensures NothingLost(c) <==> forall i | 0 <= i < |c| && -0.0000000001 <= c[i] <= 0.0000000001 :: c[i] == 0.0
  {
    if forall i | 0 <= i < |c| && -0.0000000001 <= c[i] <= 0.0000000001 :: c[i] == 0.0 {
      forall i | 0 <= i < |c|
        ensures Kept(c[i]) || c[i] == 0.0
      {
      }
    }
  }

  lemma {:induction false} ZeroFlatSum(d: seq<real>, b: nat, x: set<int>, k: nat)
    requires |d| == Pow2(b) && k <= |d| && forall i | 0 <= i < |d| :: d[i] == 0.0
    ensures FlatSum(d, b, x, k) == 0.0
  {
    if k > 0 {
      ZeroFlatSum(d, b, x, k - 1);
    }
  }

  /** A polynomial that vanishes everywhere has no coefficients. */
  lemma {:induction false} ZeroPolynomial(d: seq<real>, b: nat)
    requires |d| == Pow2(b) && forall x: set<int> :: Eval(d, b, x) == 0.0
    ensures forall i | 0 <= i < |d| :: d[i] == 0.0
  {
    if b == 0 {
      assert Eval(d, 0, {}) == d[0];
    } else {
      var h, top := Pow2(b - 1), b - 1;
      var low, high := d[..h], d[h..];
      forall x: set<int>
        ensures Eval(low, top, x) == 0.0 && Eval(high, top, x) == 0.0
      {
        var without, with := x - {top}, x + {top};
        EvalLow(low, top, x, without);
        EvalLow(low, top, x, with);
        EvalLow(high, top, x, with);
        assert Eval(d, b, without) == 0.0 && Eval(d, b, with) == 0.0;
      }
      ZeroPolynomial(low, top);
      ZeroPolynomial(high, top);
      forall i | 0 <= i < |d|
        ensures d[i] == 0.0
      {
        assert d[i] == if i < h then low[i] else high[i - h];
      }
    }
  }

  lemma {:induction false} EvalLow(c: seq<real>, b: nat, x: set<int>, y: set<int>)
    requires |c| == Pow2(b) && forall v | 0 <= v < b :: v in x <==> v in y
    ensures Eval(c, b, x) == Eval(c, b, y)
  {
    if b > 0 {
      var h := Pow2(b - 1);
      EvalLow(c[..h], b - 1, x, y);
      EvalLow(c[h..], b - 1, x, y);
    }
  }

  lemma {:induction false} SmallFlatSum(d: seq<real>, b: nat, x: set<int>, k: nat)
    requires |d| == Pow2(b) && k <= |d| && forall i | 0 <= i < |d| :: AbsReal(d[i]) <= THRESHOLD
    ensures AbsReal(FlatSum(d, b, x, k)) <= k as real * THRESHOLD
  {
    if k > 0 {
      SmallFlatSum(d, b, x, k - 1);
      assert k as real * THRESHOLD == (k - 1) as real * THRESHOLD + THRESHOLD;
    }
  }

  lemma PolynomialGap(f: seq<real>, b: nat, c: seq<real>, x: set<int>)
    requires |f| == |c| == Pow2(b) && forall i: nat | i < |f| :: c[i] == RowSum(b, i, f, |f|)
    ensures KeptSum(c, b, x, |c|) == TableAt(f, b, x) - Eval(Dropped(c), b, x)
    ensures AbsReal(Eval(Dropped(c), b, x)) <= |c| as real * THRESHOLD
  {
    var d := Dropped(c);
    SubsetSums(f, b, c, x);
    KeptAndDropped(c, b, x, |c|);
    FlatIsEval(d, b, x);
    SmallFlatSum(d, b, x, |d|);
  }

  /** What is minimised is off the table by at most the threshold times the size of the table. */
  lemma PolynomialNearTable(f: seq<real>, b: nat, c: seq<real>, x: set<int>)
    requires |f| == |c| == Pow2(b) && forall i: nat | i < |f| :: c[i] == RowSum(b, i, f, |f|)
    ensures AbsReal(KeptSum(c, b, x, |c|) - TableAt(f, b, x)) <= |c| as real * 0.0000000001
  {
    PolynomialGap(f, b, c, x);
  }

  lemma NothingLostGivesTable(f: seq<real>, b: nat, c: seq<real>, x: set<int>)
    requires |f| == |c| == Pow2(b) && forall i: nat | i < |f| :: c[i] == RowSum(b, i, f, |f|)
    requires NothingLost(c)
    ensures KeptSum(c, b, x, |c|) == TableAt(f, b, x)
  {
    PolynomialGap(f, b, c, x);
    ZeroFlatSum(Dropped(c), b, x, |c|);
    FlatIsEval(Dropped(c), b, x);
  }

  /** The kept part of the polynomial has the value of the table at every assignment. */
  ghost predicate MatchesTable(f: seq<real>, b: nat, c: seq<real>)
    requires |f| == |c| == Pow2(b)
  {
    forall x: set<int> :: KeptSum(c, b, x, |c|) == TableAt(f, b, x)
  }

  lemma TableGivesNothingLost(f: seq<real>, b: nat, c: seq<real>)
    requires |f| == |c| == Pow2(b) && forall i: nat | i < |f| :: c[i] == RowSum(b, i, f, |f|)
    requires MatchesTable(f, b, c)
    ensures NothingLost(c)
  {
    var d := Dropped(c);
    forall x: set<int>
      ensures Eval(d, b, x) == 0.0
    {
      PolynomialGap(f, b, c, x);
    }
    ZeroPolynomial(d, b);
    forall i | 0 <= i < |c|
      ensures Kept(c[i]) || c[i] == 0.0
    {
      assert d[i] == 0.0;
    }
  }

  lemma LosslessMatches(f: seq<real>, b: nat, c: seq<real>)
    requires |f| == |c| == Pow2(b) && forall i: nat | i < |f| :: c[i] == RowSum(b, i, f, |f|)
    requires NothingLost(c)
    ensures MatchesTable(f, b, c)
  {
    forall x: set<int>
      ensures KeptSum(c, b, x, |c|) == TableAt(f, b, x)
    {
      NothingLostGivesTable(f, b, c, x);
    }
  }

  /** The kept polynomial equals the table everywhere exactly when no nonzero coefficient was dropped by the threshold. */
  lemma PolynomialIsTable(f: seq<real>, b: nat, c: seq<real>)
    requires |f| == |c| == Pow2(b) && forall i: nat | i < |f| :: c[i] == RowSum(b, i, f, |f|)
    ensures NothingLost(c) <==> MatchesTable(f, b, c)
  {
    if NothingLost(c) {
      LosslessMatches(f, b, c);
    } else if MatchesTable(f, b, c) {
      TableGivesNothingLost(f, b, c);
    }
  }

  /** For every assignment of the original variables: if no coefficient was lost, the minimum of the quadratic
  energy over all ancilla values is the entry of the table, and only the products attain it. */
  lemma QuadraticIsFunction(z: Quadratic, f: seq<real>, e: Expansion, maxVar: int, pw: real, y: nat) returns (best: set<int>)
    requires Expands(f, e) && Represents(z, e, maxVar, pw) && pw > SumAbs(e.coeffs)
    requires NothingLost(e.c) && y < |f|
    ensures SameVariables(best, Bits(e.numVars, y), maxVar) && Energy(z.q, best) == f[y]
    ensures forall x: set<int> | SameVariables(x, Bits(e.numVars, y), maxVar) ::
              Energy(z.q, x) >= f[y] && (Energy(z.q, x) == f[y] <==> Consistent(x, z.mapping))
  {
    var x := Bits(e.numVars, y);
    best := MinimumOverAncillas(z, e, maxVar, pw, x);
    NothingLostGivesTable(f, e.numVars, e.c, x);
    TableAtBits(f, e.numVars, y);
  }
}
