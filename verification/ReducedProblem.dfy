/** The problem that is left after variables have been fixed is determined by the values it has to keep. */
module ReducedProblems {
  import opened CompressedMatrices
  import opened Fixings
  import opened QuboFixing
  import opened SparseMatrices
  import S = Substitution

  ghost predicate Free(fixed: seq<Fixing>, v: nat) {
    forall i | 0 <= i < |fixed| :: fixed[i].0 != v + 1
  }

  /** The fixed values, and 1 for exactly the chosen ones of the other variables. */
  ghost function Chosen(fixed: seq<Fixing>, n: nat, chosen: set<nat>): (x: seq<bool>)
    ensures |x| == n
  {
    seq(n, v requires 0 <= v < n => if Free(fixed, v) then v in chosen else (v + 1, 1) in fixed)
  }

  lemma ChosenAgrees(fixed: seq<Fixing>, n: nat, chosen: set<nat>)
    requires S.IsFixing(fixed, n)
    ensures Agrees(Chosen(fixed, n, chosen), fixed)
  {
    forall f | f in fixed
      ensures 1 <= f.0 <= n && Chosen(fixed, n, chosen)[f.0 - 1] == (f.1 == 1)
    {
      var i :| 0 <= i < |fixed| && fixed[i] == f;
      assert !Free(fixed, f.0 - 1);
    }
  }

  /** Upper triangular, without zeros, and without the fixed variables. */
  ghost predicate InShape(m: map<Key, real>, fixed: seq<Fixing>, n: nat) {
    forall key: Key | key in m :: m[key] != 0.0 && S.Untouched(fixed, key) && key.0 <= key.1 < n
  }

  lemma BothChosen(fixed: seq<Fixing>, n: nat, chosen: set<nat>, key: Key)
    requires S.Untouched(fixed, key) && key.0 <= key.1 < n
    ensures S.Both(Chosen(fixed, n, chosen), Chosen(fixed, n, chosen), key) <==> key.0 in chosen && key.1 in chosen
  {
    assert Free(fixed, key.0) && Free(fixed, key.1);
  }

  lemma {:induction false} NoneBoth(rest: set<Key>, m: map<Key, real>, x: seq<bool>)
    requires rest <= m.Keys && forall key: Key | key in rest :: !S.Both(x, x, key)
    ensures S.FormOver(rest, m, x, x) == 0.0
    decreases |rest|
  {
    if rest != {} {
      var key: Key :| key in rest;
      S.FormTake(rest, key, m, x, x);
      NoneBoth(rest - {key}, m, x);
    }
  }

  lemma Without(rest: set<Key>, m: map<Key, real>, key: Key, x: seq<bool>)
    requires rest <= m.Keys && (key in m ==> key in rest && S.Both(x, x, key))
    ensures S.FormOver(rest, m, x, x) == S.FormOver(rest - {key}, m, x, x) + S.At(m, key)
  {
    if key in rest {
      S.FormTake(rest, key, m, x, x);
    } else {
      assert rest - {key} == rest;
    }
  }

  lemma ValueAtNone(m: map<Key, real>, fixed: seq<Fixing>, n: nat)
    requires InShape(m, fixed, n)
    ensures var x := Chosen(fixed, n, {}); S.Form(m, x, x) == 0.0
  {
    forall key: Key | key in m
      ensures !S.Both(Chosen(fixed, n, {}), Chosen(fixed, n, {}), key)
    {
      BothChosen(fixed, n, {}, key);
    }
    NoneBoth(m.Keys, m, Chosen(fixed, n, {}));
  }

  lemma ValueAtOne(m: map<Key, real>, fixed: seq<Fixing>, n: nat, a: nat)
    requires InShape(m, fixed, n)
    ensures var x := Chosen(fixed, n, {a}); S.Form(m, x, x) == S.At(m, (a, a))
  {
    var x := Chosen(fixed, n, {a});
    forall key: Key | key in m
      ensures S.Both(x, x, key) <==> key == (a, a)
    {
      BothChosen(fixed, n, {a}, key);
    }
    Without(m.Keys, m, (a, a), x);
    NoneBoth(m.Keys - {(a, a)}, m, x);
  }

  lemma ValueAtTwo(m: map<Key, real>, fixed: seq<Fixing>, n: nat, a: nat, b: nat)
    requires InShape(m, fixed, n) && a < b
    ensures var x := Chosen(fixed, n, {a, b}); S.Form(m, x, x) == S.At(m, (a, a)) + S.At(m, (b, b)) + S.At(m, (a, b))
  {
    var x := Chosen(fixed, n, {a, b});
    forall key: Key | key in m
      ensures S.Both(x, x, key) <==> key == (a, a) || key == (b, b) || key == (a, b)
    {
      BothChosen(fixed, n, {a, b}, key);
    }
    var rest1 := m.Keys - {(a, a)};
    var rest2 := rest1 - {(b, b)};
    Without(m.Keys, m, (a, a), x);
    Without(rest1, m, (b, b), x);
    Without(rest2, m, (a, b), x);
    NoneBoth(rest2 - {(a, b)}, m, x);
  }

  /** The same value wherever the fixed variables have their values. */
  ghost predicate SameForm(m: map<Key, real>, w: map<Key, real>, fixed: seq<Fixing>, n: nat) {
    forall x: seq<bool> | |x| == n && Agrees(x, fixed) :: S.Form(m, x, x) == S.Form(w, x, x)
  }

  lemma SameValue(m: map<Key, real>, w: map<Key, real>, fixed: seq<Fixing>, n: nat, chosen: set<nat>)
    requires S.IsFixing(fixed, n) && SameForm(m, w, fixed, n)
    ensures var x := Chosen(fixed, n, chosen); S.Form(m, x, x) == S.Form(w, x, x)
  {
    ChosenAgrees(fixed, n, chosen);
  }

  lemma SameDiagonal(m: map<Key, real>, w: map<Key, real>, fixed: seq<Fixing>, n: nat, a: nat)
    requires S.IsFixing(fixed, n) && InShape(m, fixed, n) && InShape(w, fixed, n) && SameForm(m, w, fixed, n)
    ensures S.At(m, (a, a)) == S.At(w, (a, a))
  {
    SameValue(m, w, fixed, n, {a});
    ValueAtOne(m, fixed, n, a);
    ValueAtOne(w, fixed, n, a);
  }

  lemma SameEntry(m: map<Key, real>, w: map<Key, real>, fixed: seq<Fixing>, n: nat, a: nat, b: nat)
    requires S.IsFixing(fixed, n) && InShape(m, fixed, n) && InShape(w, fixed, n) && SameForm(m, w, fixed, n) && a <= b
    ensures S.At(m, (a, b)) == S.At(w, (a, b))
  {
    SameDiagonal(m, w, fixed, n, a);
    if a < b {
      SameDiagonal(m, w, fixed, n, b);
      SameValue(m, w, fixed, n, {a, b});
      ValueAtTwo(m, fixed, n, a, b);
      ValueAtTwo(w, fixed, n, a, b);
    }
  }

  /** Two maps of this shape with the same values up to a constant are the same. */
  lemma ShapeIsUnique(m: map<Key, real>, w: map<Key, real>, fixed: seq<Fixing>, n: nat, c: real, d: real)
    requires S.IsFixing(fixed, n) && InShape(m, fixed, n) && InShape(w, fixed, n)
    requires forall x: seq<bool> | |x| == n && Agrees(x, fixed) :: c + S.Form(m, x, x) == d + S.Form(w, x, x)
    ensures c == d && m == w
  {
    ChosenAgrees(fixed, n, {});
    ValueAtNone(m, fixed, n);
    ValueAtNone(w, fixed, n);
    assert SameForm(m, w, fixed, n);
    forall key: Key | key in m || key in w
      ensures S.At(m, key) == S.At(w, key)
    {
      SameEntry(m, w, fixed, n, key.0, key.1);
    }
    SameMaps(m, w);
  }

  lemma SameMaps(m: map<Key, real>, w: map<Key, real>)
    requires (forall key: Key | key in m :: m[key] != 0.0) && (forall key: Key | key in w :: w[key] != 0.0)
    requires forall key: Key | key in m || key in w :: S.At(m, key) == S.At(w, key)
    ensures m == w
  {
    forall key: Key
      ensures (key in m <==> key in w) && (key in m ==> m[key] == w[key])
    {
      assert key in m || key in w ==> S.At(m, key) == S.At(w, key);
    }
  }

  /** Once the fixed variables are given, there is one matrix of this shape and one offset that keep the value of every
  assignment with the fixed values: the ones that are returned. */
  lemma LeftIsDetermined(q: Csr<real>, v: FixVariablesResult, w: FixVariablesResult)
    requires q.Valid() && q.numRows == q.numCols && v.fixedVars == w.fixedVars
    requires Preserves(q, v) && Leaves(q, v) && Preserves(q, w) && Leaves(q, w)
    ensures v == w
  {
    if v.fixedVars != [] {
      forall x: seq<bool> | |x| == q.numRows && Agrees(x, v.fixedVars)
        ensures v.offset + S.Form(v.newQ.View(), x, x) == w.offset + S.Form(w.newQ.View(), x, x)
      {
        S.EnergyIsForm(v.newQ, x, |v.newQ.values|);
        S.EnergyIsForm(w.newQ, x, |w.newQ.values|);
        assert S.Energy(q, x) == v.offset + S.Energy(v.newQ, x);
      }
      ShapeIsUnique(v.newQ.View(), w.newQ.View(), v.fixedVars, q.numRows, v.offset, w.offset);
    }
    SameRepresentation(v.newQ, w.newQ);
  }
}
