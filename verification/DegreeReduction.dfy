/** Degree reduction: products of more than two variables are rewritten, pair by pair, with ancilla variables. */
module DegreeReduction {
  import opened Queues
  import opened Results

  type Pair = (int, int)

  /** `ancilla` stands for the product of two earlier variables. */
  datatype Ancilla = Ancilla(id: int, left: int, right: int)

  datatype TermsResult = TermsResult(newTerms: seq<set<int>>, mapping: seq<Ancilla>)

  /** All pairs (a, b) of the term with a < b. */
  function Pairs(t: set<int>): (s: set<Pair>)
  {
    set a, b | a in t && b in t && a < b :: (a, b)
  }

  /** The pairs of a term that still has to be reduced. */
  function Large(t: set<int>): set<Pair> {
    if |t| > 2 then Pairs(t) else {}
  }

  ghost function LargeAll(terms: seq<set<int>>): (p: seq<set<Pair>>)
    ensures |p| == |terms| && forall i | 0 <= i < |p| :: p[i] == Large(terms[i])
  {
    seq(|terms|, i requires 0 <= i < |terms| => Large(terms[i]))
  }

  /** The numbers of the terms that have the pair. */
  ghost function Owners(p: seq<set<Pair>>, key: Pair): (s: set<int>)
    ensures forall i :: i in s <==> 0 <= i < |p| && key in p[i]
  {
    set i | 0 <= i < |p| && key in p[i]
  }

  /** The index maps exactly the pairs that occur to the terms they occur in. */
  ghost predicate Indexes(index: map<Pair, set<int>>, p: seq<set<Pair>>) {
    && (forall key :: key in index <==> Owners(p, key) != {})
    && (forall key | key in index :: index[key] == Owners(p, key))
  }

  function Entry(index: map<Pair, set<int>>, key: Pair): set<int> {
    if key in index then index[key] else {}
  }

  method AddPairs(index0: map<Pair, set<int>>, t: set<int>, k: int, ghost p: seq<set<Pair>>) returns (index: map<Pair, set<int>>)
    requires 0 <= k < |p| && p[k] == {} && Indexes(index0, p)
    ensures Indexes(index, p[k := Pairs(t)])
  {
    index := index0;
    var rest := Pairs(t);
    assert p[k := {}] == p;
    while rest != {}
      invariant rest <= Pairs(t) && Indexes(index, p[k := Pairs(t) - rest])
    {
      var key :| key in rest;
      ghost var q := p[k := Pairs(t) - rest];
      index := index[key := Entry(index, key) + {k}];
      rest := rest - {key};
      assert Pairs(t) - rest == q[k] + {key};
      Reindex(q, p[k := Pairs(t) - rest], key, k);
    }
    assert Pairs(t) - rest == Pairs(t);
  }

  method RemovePairs(index0: map<Pair, set<int>>, t: set<int>, k: int, ghost p: seq<set<Pair>>) returns (index: map<Pair, set<int>>)
    requires 0 <= k < |p| && p[k] == Pairs(t) && Indexes(index0, p)
    ensures Indexes(index, p[k := {}])
  {
    index := index0;
    var rest := Pairs(t);
    assert p[k := rest] == p;
    while rest != {}
      invariant rest <= Pairs(t) && Indexes(index, p[k := rest])
    {
      var key :| key in rest;
      ghost var q := p[k := rest];
      index := index[key := Entry(index, key) - {k}];
      if index[key] == {} {
        index := index - {key};
      }
      rest := rest - {key};
      assert rest + {key} == q[k] && q == p[k := rest][k := rest + {key}];
      Reindex(p[k := rest], q, key, k);
    }
  }

  /** Giving term `k` one more pair changes the owners of that pair only. */
  lemma Reindex(p: seq<set<Pair>>, q: seq<set<Pair>>, key: Pair, k: int)
    requires 0 <= k < |p| && key !in p[k] && q == p[k := p[k] + {key}]
    ensures Owners(q, key) == Owners(p, key) + {k} && k !in Owners(p, key)
    ensures forall other | other != key :: Owners(q, other) == Owners(p, other)
  {
    forall other | other != key
      ensures Owners(q, other) == Owners(p, other)
    {
      assert forall i | 0 <= i < |p| :: other in q[i] <==> other in p[i];
    }
  }

  // ---------------------------------------------------------------- what reduction preserves

  /** The set of true variables `x` gives every ancilla the value of its product. */
  ghost predicate Consistent(x: set<int>, mapping: seq<Ancilla>) {
    forall m | m in mapping :: m.id in x <==> m.left in x && m.right in x
  }

  ghost function TotalSize(terms: seq<set<int>>): nat {
    if terms == [] then 0 else TotalSize(terms[..|terms| - 1]) + |terms[|terms| - 1]|
  }

  /** Ancillas are numbered upwards from `first`, each the product of two smaller variables. */
  ghost predicate Fresh(mapping: seq<Ancilla>, first: int) {
    forall j | 0 <= j < |mapping| ::
      mapping[j].id == first + j && 0 <= mapping[j].left < mapping[j].right < mapping[j].id
  }

  /** `now` is a partly reduced form of `terms`: the terms of size at most two are untouched, the others have at
  least two elements, and every term has the product of its original. */
  ghost predicate Reduces(terms: seq<set<int>>, now: seq<set<int>>, mapping: seq<Ancilla>, first: int) {
    && |now| == |terms|
    && Fresh(mapping, first)
    && (forall i | 0 <= i < |now| :: if |terms[i]| <= 2 then now[i] == terms[i] else |now[i]| >= 2)
    && (forall i | 0 <= i < |now| :: forall v | v in now[i] :: 0 <= v < first + |mapping|)
    && KeepsProducts(terms, now, mapping)
  }

  /** Under an assignment that respects the ancillas each term is true exactly when its original is. */
  ghost predicate KeepsProducts(terms: seq<set<int>>, now: seq<set<int>>, mapping: seq<Ancilla>)
    requires |now| == |terms|
  {
    forall x: set<int>, i | Consistent(x, mapping) && 0 <= i < |now| :: now[i] <= x <==> terms[i] <= x
  }

  /** `m` is the largest variable of the terms, or 0. */
  ghost predicate IsMaxVar(terms: seq<set<int>>, m: int) {
    && 0 <= m
    && (forall i, v | 0 <= i < |terms| && v in terms[i] :: v <= m)
    && (m == 0 || exists i :: 0 <= i < |terms| && m in terms[i])
  }

  method LargestVariable(terms: seq<set<int>>) returns (maxVar: int)
    ensures IsMaxVar(terms, maxVar)
  {
    maxVar := 0;
    for i := 0 to |terms|
      invariant IsMaxVar(terms[..i], maxVar)
    {
      ghost var before := maxVar;
      var rest := terms[i];
      while rest != {}
        invariant rest <= terms[i] && before <= maxVar
        invariant forall v | v in terms[i] && v !in rest :: v <= maxVar
        invariant maxVar == before || maxVar in terms[i]
      {
        Inhabited(rest);
        var v :| v in rest;
        if maxVar < v {
          maxVar := v;
        }
        rest := rest - {v};
      }
      LargestSoFar(terms, i, before, maxVar);
    }
    assert terms[..|terms|] == terms;
  }

  lemma LargestSoFar(terms: seq<set<int>>, i: nat, before: int, maxVar: int)
    requires i < |terms| && IsMaxVar(terms[..i], before) && before <= maxVar
    requires (forall v | v in terms[i] :: v <= maxVar) && (maxVar == before || maxVar in terms[i])
    ensures IsMaxVar(terms[..i + 1], maxVar)
  {
    var now := terms[..i + 1];
    assert forall j | 0 <= j < i :: now[j] == terms[..i][j];
    if maxVar != 0 && maxVar == before {
      var j :| 0 <= j < i && before in terms[..i][j];
      assert maxVar in now[j];
    } else if maxVar != 0 {
      assert maxVar in now[i];
    }
  }

  method BuildIndex(terms: seq<set<int>>) returns (index: map<Pair, set<int>>)
    ensures Indexes(index, LargeAll(terms))
  {
    index := map[];
    ghost var p: seq<set<Pair>> := seq(|terms|, _ => {});
    for i := 0 to |terms|
      invariant |p| == |terms| && Indexes(index, p)
      invariant forall j | 0 <= j < |p| :: p[j] == if j < i then Large(terms[j]) else {}
    {
      if |terms[i]| > 2 {
        index := AddPairs(index, terms[i], i, p);
        p := p[i := Pairs(terms[i])];
      }
    }
    assert p == LargeAll(terms);
  }

  /** The order of the keys of the index. */
  predicate Before(a: Pair, b: Pair) {
    a.0 < b.0 || (a.0 == b.0 && a.1 <= b.1)
  }

  /** `best` occurs in more terms than `key`, or in as many and comes first. */
  predicate Wider(index: map<Pair, set<int>>, best: Pair, key: Pair)
    requires best in index && key in index
  {
    |index[key]| < |index[best]| || (|index[key]| == |index[best]| && Before(best, key))
  }

  lemma {:induction false} WidestEntry(index: map<Pair, set<int>>) returns (best: Pair)
    requires index.Keys != {}
    ensures best in index && forall key | key in index :: Wider(index, best, key)
    decreases |index.Keys|
  {
    best :| best in index;
    var rest := index - {best};
    if rest.Keys == {} {
      assert forall key | key in index :: key == best || key in rest;
    } else {
      assert rest.Keys == index.Keys - {best};
      var other := WidestEntry(rest);
      var first := best;
      if !Wider(index, best, other) {
        best := other;
      }
      forall key | key in index
        ensures Wider(index, best, key)
      {
        assert key == first || key in rest;
        assert key in rest ==> Wider(rest, other, key);
      }
    }
  }

  /** Replaces the pair by its ancilla in one term and keeps the index exact. */
  method Rewrite(tmp0: seq<set<int>>, index0: map<Pair, set<int>>, k: int, a: Ancilla)
    returns (tmp: seq<set<int>>, index: map<Pair, set<int>>)
    requires 0 <= k < |tmp0| && |tmp0[k]| > 2 && Indexes(index0, LargeAll(tmp0))
    ensures tmp == tmp0[k := tmp0[k] - {a.left} - {a.right} + {a.id}] && Indexes(index, LargeAll(tmp))
  {
    ghost var p := LargeAll(tmp0);
    index := RemovePairs(index0, tmp0[k], k, p);
    tmp := tmp0[k := tmp0[k] - {a.left}];
    tmp := tmp[k := tmp[k] - {a.right}];
    tmp := tmp[k := tmp[k] + {a.id}];
    assert LargeAll(tmp) == p[k := Large(tmp[k])];
    if |tmp[k]| > 2 {
      index := AddPairs(index, tmp[k], k, p[k := {}]);
      assert p[k := {}][k := Pairs(tmp[k])] == p[k := Pairs(tmp[k])];
    }
  }

  /** The terms with the pair of `a` rewritten in those listed in `which`. */
  ghost function Rewritten(tmp: seq<set<int>>, which: set<int>, a: Ancilla): (r: seq<set<int>>)
    ensures |r| == |tmp|
    ensures forall i | 0 <= i < |r| :: r[i] == if i in which then tmp[i] - {a.left} - {a.right} + {a.id} else tmp[i]
  {
    seq(|tmp|, i requires 0 <= i < |tmp| => if i in which then tmp[i] - {a.left} - {a.right} + {a.id} else tmp[i])
  }

  /** The pair occurs in the most terms that still have to be reduced, and comes first among those that do. */
  ghost predicate MostFrequent(terms: seq<set<int>>, best: Pair) {
    var p := LargeAll(terms);
    && Owners(p, best) != {}
    && forall key | Owners(p, key) != {} ::
         |Owners(p, key)| < |Owners(p, best)| || (|Owners(p, key)| == |Owners(p, best)| && Before(best, key))
  }

  lemma WidestIsMostFrequent(index: map<Pair, set<int>>, terms: seq<set<int>>, best: Pair)
    requires Indexes(index, LargeAll(terms)) && best in index && forall key | key in index :: Wider(index, best, key)
    ensures MostFrequent(terms, best)
  {
    forall key | Owners(LargeAll(terms), key) != {}
      ensures |Owners(LargeAll(terms), key)| < |Owners(LargeAll(terms), best)|
           || (|Owners(LargeAll(terms), key)| == |Owners(LargeAll(terms), best)| && Before(best, key))
    {
      assert Wider(index, best, key);
    }
  }

  /** One round: the most frequent pair gets an ancilla in every term that contains it. */
  method Round(tmp0: seq<set<int>>, index0: map<Pair, set<int>>, maxVar: int)
    returns (tmp: seq<set<int>>, index: map<Pair, set<int>>, a: Ancilla, ghost affected: set<int>)
    requires index0 != map[] && Indexes(index0, LargeAll(tmp0))
    ensures a.id == maxVar && (a.left, a.right) in index0 && affected == index0[(a.left, a.right)]
    ensures MostFrequent(tmp0, (a.left, a.right))
    ensures tmp == Rewritten(tmp0, affected, a) && Indexes(index, LargeAll(tmp))
  {
    assert index0.Keys != {};
    ghost var best := WidestEntry(index0);
    var it :| it in index0 && forall key | key in index0 :: Wider(index0, it, key);
    WidestIsMostFrequent(index0, tmp0, it);
    a := Ancilla(maxVar, it.0, it.1);
    affected := index0[it];
    assert affected == Owners(LargeAll(tmp0), it);
    tmp, index := RewriteAll(tmp0, index0, index0[it], a);
  }

  method RewriteAll(tmp0: seq<set<int>>, index0: map<Pair, set<int>>, affected: set<int>, a: Ancilla)
    returns (tmp: seq<set<int>>, index: map<Pair, set<int>>)
    requires Indexes(index0, LargeAll(tmp0)) && forall k | k in affected :: 0 <= k < |tmp0| && |tmp0[k]| > 2
    ensures tmp == Rewritten(tmp0, affected, a) && Indexes(index, LargeAll(tmp))
  {
    tmp, index := tmp0, index0;
    var rest := affected;
    assert Rewritten(tmp0, {}, a) == tmp0;
    while rest != {}
      invariant rest <= affected
      invariant tmp == Rewritten(tmp0, affected - rest, a) && Indexes(index, LargeAll(tmp))
    {
      Inhabited(rest);
      var k :| k in rest;
      tmp, index := Rewrite(tmp, index, k, a);
      rest := rest - {k};
      assert tmp == Rewritten(tmp0, affected - rest, a);
    }
    assert affected - {} == affected;
  }

  // ---------------------------------------------------------------- one round preserves the products and makes progress

  lemma {:induction false} TotalSizeUpdate(s: seq<set<int>>, t: seq<set<int>>, w: set<int>)
    requires |s| == |t| && forall i | 0 <= i < |s| :: |t[i]| <= |s[i]| && (i in w ==> |t[i]| < |s[i]|)
    ensures TotalSize(t) <= TotalSize(s)
    ensures (exists i :: 0 <= i < |s| && i in w) ==> TotalSize(t) < TotalSize(s)
  {
    if s != [] {
      TotalSizeUpdate(s[..|s| - 1], t[..|t| - 1], w);
    }
  }

  lemma RewriteSize(t: set<int>, a: Ancilla)
    requires a.left in t && a.right in t && a.left != a.right && a.id !in t
    ensures |t - {a.left} - {a.right} + {a.id}| == |t| - 1
  {
  }

  /** The rewritten term has the same product under every assignment that respects the ancilla. */
  lemma RewriteProduct(t: set<int>, a: Ancilla, x: set<int>)
    requires a.left in t && a.right in t && a.id !in t && (a.id in x <==> a.left in x && a.right in x)
    ensures t - {a.left} - {a.right} + {a.id} <= x <==> t <= x
  {
    if t - {a.left} - {a.right} + {a.id} <= x {
      forall v | v in t
        ensures v in x
      {
        assert a.id in x;
        assert v == a.left || v == a.right || v in t - {a.left} - {a.right} + {a.id};
      }
    }
  }

  lemma RoundSizes(terms: seq<set<int>>, now: seq<set<int>>, next: seq<set<int>>, mapping: seq<Ancilla>, first: int, a: Ancilla, affected: set<int>)
    requires Reduces(terms, now, mapping, first) && 0 <= first
    requires a.id == first + |mapping| && affected == Owners(LargeAll(now), (a.left, a.right))
    requires next == Rewritten(now, affected, a)
    ensures forall i | 0 <= i < |now| :: |next[i]| <= |now[i]| && (i in affected ==> |next[i]| < |now[i]|)
    ensures forall i | 0 <= i < |now| :: if |terms[i]| <= 2 then next[i] == terms[i] else |next[i]| >= 2
    ensures forall i | 0 <= i < |now| :: forall v | v in next[i] :: 0 <= v < first + |mapping| + 1
  {
    forall i | 0 <= i < |now|
      ensures |next[i]| <= |now[i]| && (i in affected ==> |next[i]| < |now[i]|)
      ensures if |terms[i]| <= 2 then next[i] == terms[i] else |next[i]| >= 2
      ensures forall v | v in next[i] :: 0 <= v < first + |mapping| + 1
    {
      if i in affected {
        RewriteSize(now[i], a);
      }
    }
  }

  lemma RoundProducts(terms: seq<set<int>>, now: seq<set<int>>, next: seq<set<int>>, mapping: seq<Ancilla>, first: int, a: Ancilla,
                      affected: set<int>, x: set<int>, i: int)
    requires Reduces(terms, now, mapping, first) && 0 <= first
    requires a.id == first + |mapping| && affected == Owners(LargeAll(now), (a.left, a.right))
    requires next == Rewritten(now, affected, a)
    requires Consistent(x, mapping + [a]) && 0 <= i < |now|
    ensures next[i] <= x <==> terms[i] <= x
  {
    assert a in mapping + [a];
    forall m | m in mapping
      ensures m.id in x <==> m.left in x && m.right in x
    {
      assert m in mapping + [a];
    }
    assert Consistent(x, mapping);
    assert now[i] <= x <==> terms[i] <= x;
    if i in affected {
      RewriteProduct(now[i], a, x);
    }
  }

  lemma RoundReduces(terms: seq<set<int>>, now: seq<set<int>>, next: seq<set<int>>, mapping: seq<Ancilla>, first: int, a: Ancilla, affected: set<int>)
    requires Reduces(terms, now, mapping, first) && 0 <= first
    requires a.id == first + |mapping| && affected == Owners(LargeAll(now), (a.left, a.right)) && affected != {}
    requires next == Rewritten(now, affected, a)
    ensures Reduces(terms, next, mapping + [a], first)
    ensures TotalSize(next) < TotalSize(now)
  {
    Inhabited(affected);
    var some :| some in affected;
    assert a.left in now[some] && a.right in now[some];
    assert Fresh(mapping + [a], first) by {
      assert a.left < a.right;
    }
    RoundSizes(terms, now, next, mapping, first, a, affected);
    TotalSizeUpdate(now, next, affected);
    RoundKeepsProducts(terms, now, next, mapping, first, a, affected);
  }

  lemma RoundKeepsProducts(terms: seq<set<int>>, now: seq<set<int>>, next: seq<set<int>>, mapping: seq<Ancilla>, first: int, a: Ancilla, affected: set<int>)
    requires Reduces(terms, now, mapping, first) && 0 <= first
    requires a.id == first + |mapping| && affected == Owners(LargeAll(now), (a.left, a.right))
    requires next == Rewritten(now, affected, a)
    ensures KeepsProducts(terms, next, mapping + [a])
  {
    forall x: set<int>, i | Consistent(x, mapping + [a]) && 0 <= i < |next|
      ensures next[i] <= x <==> terms[i] <= x
    {
      RoundProducts(terms, now, next, mapping, first, a, affected, x, i);
    }
  }

  lemma ReductionStart(terms: seq<set<int>>, maxVar: int)
    requires IsMaxVar(terms, maxVar) && forall i, v | 0 <= i < |terms| && v in terms[i] :: 0 <= v
    ensures Reduces(terms, terms, [], maxVar + 1)
  {
  }

  /** A term with more than two variables keeps the index from being empty. */
  lemma EmptyIndex(index: map<Pair, set<int>>, terms: seq<set<int>>)
    requires Indexes(index, LargeAll(terms))
    ensures index == map[] ==> forall i | 0 <= i < |terms| :: |terms[i]| <= 2
  {
    if i :| 0 <= i < |terms| && |terms[i]| > 2 {
      var a, b := TwoElements(terms[i]);
      assert i in Owners(LargeAll(terms), (a, b));
      assert (a, b) in index;
    }
  }

  lemma TwoElements(t: set<int>) returns (a: int, b: int)
    requires |t| >= 2
    ensures a in t && b in t && a < b
  {
    Inhabited(t);
    a :| a in t;
    assert |t - {a}| >= 1;
    Inhabited(t - {a});
    b :| b in t - {a};
    if b < a {
      a, b := b, a;
    }
  }

  // ---------------------------------------------------------------- the rounds

  /** One round after the other, with ancillas numbered from `id`, until no term has more than two variables. */
  ghost predicate ReducesTo(now: seq<set<int>>, id: int, end: seq<set<int>>, mapping: seq<Ancilla>)
    decreases |mapping|
  {
    if mapping == [] then end == now && forall i | 0 <= i < |now| :: |now[i]| <= 2
    else
      var a := mapping[0];
      && a.id == id && MostFrequent(now, (a.left, a.right))
      && ReducesTo(Rewritten(now, Owners(LargeAll(now), (a.left, a.right)), a), id + 1, end, mapping[1..])
  }

  lemma FirstRound(now: seq<set<int>>, id: int, end: seq<set<int>>, mapping: seq<Ancilla>)
    requires ReducesTo(now, id, end, mapping) && mapping != []
    ensures var a := mapping[0];
            && a.id == id && MostFrequent(now, (a.left, a.right))
            && ReducesTo(Rewritten(now, Owners(LargeAll(now), (a.left, a.right)), a), id + 1, end, mapping[1..])
  {
  }

  lemma SamePair(now: seq<set<int>>, best: Pair, best': Pair)
    requires MostFrequent(now, best) && MostFrequent(now, best')
    ensures best == best'
  {
  }

  lemma SameLists(s: seq<Ancilla>, t: seq<Ancilla>)
    requires s != [] && t != [] && s[0] == t[0] && s[1..] == t[1..]
    ensures s == t
  {
    assert s == [s[0]] + s[1..] && t == [t[0]] + t[1..];
  }

  /** Whatever the terms reduce to leaves one possible list of ancillas and one possible result. */
  lemma {:induction false} ReductionIsUnique(now: seq<set<int>>, id: int, end: seq<set<int>>, mapping: seq<Ancilla>,
                                             end': seq<set<int>>, mapping': seq<Ancilla>)
    requires ReducesTo(now, id, end, mapping) && ReducesTo(now, id, end', mapping')
    ensures end == end' && mapping == mapping'
    decreases |mapping|
  {
    if mapping == [] || mapping' == [] {
      NoneLarge(now);
    } else {
      var a, a' := mapping[0], mapping'[0];
      FirstRound(now, id, end, mapping);
      FirstRound(now, id, end', mapping');
      SamePair(now, (a.left, a.right), (a'.left, a'.right));
      ReductionIsUnique(Rewritten(now, Owners(LargeAll(now), (a.left, a.right)), a), id + 1, end, mapping[1..], end', mapping'[1..]);
      SameLists(mapping, mapping');
    }
  }

  lemma NoneLarge(now: seq<set<int>>)
    ensures (forall i | 0 <= i < |now| :: |now[i]| <= 2) ==> forall key :: !MostFrequent(now, key)
  {
  }

  /** Whatever follows from the terms of now continues the rounds so far. */
  ghost predicate Extends(terms: seq<set<int>>, first: int, now: seq<set<int>>, mapping: seq<Ancilla>) {
    forall end, more :: ReducesTo(now, first + |mapping|, end, more) ==> ReducesTo(terms, first, end, mapping + more)
  }

  lemma ExtendsStart(terms: seq<set<int>>, first: int)
    ensures Extends(terms, first, terms, [])
  {
    forall end, more | ReducesTo(terms, first, end, more)
      ensures ReducesTo(terms, first, end, [] + more)
    {
      assert [] + more == more;
    }
  }

  lemma RoundInFront(now: seq<set<int>>, id: int, next: seq<set<int>>, a: Ancilla, end: seq<set<int>>, more: seq<Ancilla>)
    requires a.id == id && MostFrequent(now, (a.left, a.right)) && next == Rewritten(now, Owners(LargeAll(now), (a.left, a.right)), a)
    requires ReducesTo(next, id + 1, end, more)
    ensures ReducesTo(now, id, end, [a] + more)
  {
    assert ([a] + more)[1..] == more;
  }

  lemma ExtendsOnce(terms: seq<set<int>>, first: int, now: seq<set<int>>, mapping: seq<Ancilla>, a: Ancilla, end: seq<set<int>>, more: seq<Ancilla>)
    requires Extends(terms, first, now, mapping) && ReducesTo(now, first + |mapping|, end, [a] + more)
    ensures ReducesTo(terms, first, end, mapping + [a] + more)
  {
    assert mapping + [a] + more == mapping + ([a] + more);
  }

  lemma ExtendsRound(terms: seq<set<int>>, first: int, now: seq<set<int>>, mapping: seq<Ancilla>, next: seq<set<int>>, a: Ancilla)
    requires Extends(terms, first, now, mapping) && a.id == first + |mapping| && MostFrequent(now, (a.left, a.right))
    requires next == Rewritten(now, Owners(LargeAll(now), (a.left, a.right)), a)
    ensures Extends(terms, first, next, mapping + [a])
  {
    forall end, more | ReducesTo(next, first + |mapping + [a]|, end, more)
      ensures ReducesTo(terms, first, end, mapping + [a] + more)
    {
      RoundInFront(now, first + |mapping|, next, a, end, more);
      ExtendsOnce(terms, first, now, mapping, a, end, more);
    }
  }

  lemma ExtendsEnd(terms: seq<set<int>>, first: int, now: seq<set<int>>, mapping: seq<Ancilla>)
    requires Extends(terms, first, now, mapping) && forall i | 0 <= i < |now| :: |now[i]| <= 2
    ensures ReducesTo(terms, first, now, mapping)
  {
    assert ReducesTo(now, first + |mapping|, now, []);
    assert mapping + [] == mapping;
  }

  ghost predicate RoundsSoFar(terms: seq<set<int>>, first: int, now: seq<set<int>>, mapping: seq<Ancilla>) {
    && Reduces(terms, now, mapping, first) && Extends(terms, first, now, mapping)
    && |mapping| + TotalSize(now) <= TotalSize(terms)
  }

  method NextRound(ghost terms: seq<set<int>>, ghost first: int, tmp0: seq<set<int>>, index0: map<Pair, set<int>>, mapping0: seq<Ancilla>, id: int)
    returns (tmp: seq<set<int>>, index: map<Pair, set<int>>, mapping: seq<Ancilla>)
    requires index0 != map[] && Indexes(index0, LargeAll(tmp0))
    requires 0 <= first && RoundsSoFar(terms, first, tmp0, mapping0) && id == first + |mapping0|
    ensures Indexes(index, LargeAll(tmp)) && |mapping| == |mapping0| + 1
    ensures RoundsSoFar(terms, first, tmp, mapping) && TotalSize(tmp) < TotalSize(tmp0)
  {
    var a;
    ghost var affected;
    tmp, index, a, affected := Round(tmp0, index0, id);
    RoundReduces(terms, tmp0, tmp, mapping0, first, a, affected);
    ExtendsRound(terms, first, tmp0, mapping0, tmp, a);
    mapping := mapping0 + [a];
  }

  /** The whole rewriting. There are at most as many ancillas as the terms lost variables. Every term has at most two
  variables, terms that had at most two are unchanged, longer ones have exactly two, and all products are those of the
  original terms. */
  ghost predicate IsReduction(terms: seq<set<int>>, maxVar: int, r: TermsResult) {
    && IsMaxVar(terms, maxVar) && Reduces(terms, r.newTerms, r.mapping, maxVar + 1)
    && (forall i | 0 <= i < |terms| :: if |terms[i]| <= 2 then r.newTerms[i] == terms[i] else |r.newTerms[i]| == 2)
    && |r.mapping| + TotalSize(r.newTerms) <= TotalSize(terms)
    && ReducesTo(terms, maxVar + 1, r.newTerms, r.mapping)
  }

  lemma RoundsDone(terms: seq<set<int>>, maxVar: int, now: seq<set<int>>, mapping: seq<Ancilla>)
    requires IsMaxVar(terms, maxVar) && RoundsSoFar(terms, maxVar + 1, now, mapping) && forall i | 0 <= i < |now| :: |now[i]| <= 2
    ensures IsReduction(terms, maxVar, TermsResult(now, mapping))
  {
    ExtendsEnd(terms, maxVar + 1, now, mapping);
  }

  method AllRounds(terms: seq<set<int>>, maxVar: int) returns (newTerms: seq<set<int>>, mapping: seq<Ancilla>)
    requires IsMaxVar(terms, maxVar) && forall i, v | 0 <= i < |terms| && v in terms[i] :: 0 <= v
    ensures IsReduction(terms, maxVar, TermsResult(newTerms, mapping))
  {
    var tmpTerms, top := terms, maxVar;
    var pairBelongsTo := BuildIndex(terms);
    mapping := [];
    ReductionStart(terms, maxVar);
    ExtendsStart(terms, maxVar + 1);
    while pairBelongsTo != map[]
      invariant Indexes(pairBelongsTo, LargeAll(tmpTerms))
      invariant RoundsSoFar(terms, maxVar + 1, tmpTerms, mapping) && top == maxVar + |mapping|
      decreases TotalSize(tmpTerms)
    {
      top := top + 1;
      tmpTerms, pairBelongsTo, mapping := NextRound(terms, maxVar + 1, tmpTerms, pairBelongsTo, mapping, top);
    }
    EmptyIndex(pairBelongsTo, tmpTerms);
    RoundsDone(terms, maxVar, tmpTerms, mapping);
    newTerms := tmpTerms;
  }

  method ReduceDegree(terms: seq<set<int>>) returns (r: Result<TermsResult>, ghost maxVar: int)
    ensures r.Failure? <==> exists i, v :: 0 <= i < |terms| && v in terms[i] && v < 0
    ensures r.Success? ==> IsReduction(terms, maxVar, r.value)
  {
    maxVar := 0;
    var negative := HasNegative(terms);
    if negative {
      return Failure("terms should contain non-negative integers"), maxVar;
    }
    var top := LargestVariable(terms);
    maxVar := top;
    var newTerms, mapping := AllRounds(terms, top);
    r := Success(TermsResult(newTerms, mapping));
  }

  method HasNegative(terms: seq<set<int>>) returns (b: bool)
    ensures b <==> exists i, v :: 0 <= i < |terms| && v in terms[i] && v < 0
  {
    b := false;
    for i := 0 to |terms|
      invariant b <==> exists j, v :: 0 <= j < i && v in terms[j] && v < 0
    {
      if exists v :: v in terms[i] && v < 0 {
        b := true;
      }
    }
  }
}
