/** The body of `fixVariables`: fixing components in the order the worklist decides them. */
module FixVariables {
  import opened CompressedMatrices
  import opened Qubo
  import opened Queues
  import opened Components
  import opened Fixings
  import opened Worklist
  import FixOptimized

  /** The literals whose vertices lie in the components `f`. */
  ghost function LiteralsOf(component: seq<nat>, n: nat, f: set<nat>): set<int>
    requires |component| == 2 * n + 2
  {
    set c | 0 - n <= c <= n && IsLiteral(n, c) && InComponents(component, n, f, c)
  }

  ghost predicate InComponents(component: seq<nat>, n: nat, f: set<nat>, c: int)
    requires |component| == 2 * n + 2 && IsLiteral(n, c)
  {
    component[if c > 0 then c else n + 1 - c] in f
  }

  /** Fixes all variables of a component: positive literals to 1, negative ones to 0. */
  method FixComponent(ret0: seq<Fixing>, sc: SC, ghost component: seq<nat>, ghost n: nat, ghost c: nat) returns (ret: seq<Fixing>)
    requires |component| == 2 * n + 2 && ListsComponent(sc, component, n, c, |component|) && NoRepeats(sc)
    requires component[0] != c && component[n + 1] != c
    requires forall f | f in ret0 :: 1 <= f.0 <= n && (f.1 == 0 || f.1 == 1)
    requires Distinct(ret0) && Fixed(ret0) * LiteralsOf(component, n, {c}) <= {0}
    ensures Fixed(ret) == Fixed(ret0) + LiteralsOf(component, n, {c})
    ensures forall f | f in ret :: 1 <= f.0 <= n && (f.1 == 0 || f.1 == 1)
    ensures Distinct(ret)
  {
    var ones := seq(|sc.positive|, k requires 0 <= k < |sc.positive| => (sc.positive[k], 1));
    var zeros := seq(|sc.negative|, k requires 0 <= k < |sc.negative| => (sc.negative[k], 0));
    ret := ret0 + ones + zeros;
    ComponentLiterals(sc, component, n, c, ones, zeros);
    FixedConcat(ret0, ones);
    FixedConcat(ret0 + ones, zeros);
    assert Fixed(ret) == Fixed(ret0) + (Fixed(ones) + Fixed(zeros));
    NothingTwice(sc, ret0, ones, zeros, LiteralsOf(component, n, {c}));
  }

  lemma NothingTwice(sc: SC, ret0: seq<Fixing>, ones: seq<Fixing>, zeros: seq<Fixing>, lits: set<int>)
    requires NoRepeats(sc) && Distinct(ret0) && Fixed(ret0) * lits <= {0} && Fixed(ones) + Fixed(zeros) <= {0} + lits
    requires |ones| == |sc.positive| && forall k | 0 <= k < |ones| :: ones[k] == (sc.positive[k], 1)
    requires |zeros| == |sc.negative| && forall k | 0 <= k < |zeros| :: zeros[k] == (sc.negative[k], 0)
    requires forall f | f in ones || f in zeros :: f.0 >= 1
    ensures Distinct(ret0 + ones + zeros)
  {
    forall f | f in ones || f in zeros
      ensures f !in ret0
    {
      assert Code(f) in Fixed(ones) + Fixed(zeros) && Code(f) != 0;
      assert f in ret0 ==> Code(f) in Fixed(ret0);
    }
    assert Distinct(ones) && Distinct(zeros);
    DistinctConcat(ret0, ones);
    forall f | f in zeros
      ensures f !in ret0 + ones
    {
      assert f.1 == 0;
    }
    DistinctConcat(ret0 + ones, zeros);
  }

  lemma ComponentLiterals(sc: SC, component: seq<nat>, n: nat, c: nat, ones: seq<Fixing>, zeros: seq<Fixing>)
    requires |component| == 2 * n + 2 && ListsComponent(sc, component, n, c, |component|)
    requires component[0] != c && component[n + 1] != c
    requires |ones| == |sc.positive| && forall k | 0 <= k < |ones| :: ones[k] == (sc.positive[k], 1)
    requires |zeros| == |sc.negative| && forall k | 0 <= k < |zeros| :: zeros[k] == (sc.negative[k], 0)
    ensures Fixed(ones) + Fixed(zeros) == {0} + LiteralsOf(component, n, {c})
    ensures forall f | f in ones || f in zeros :: 1 <= f.0 <= n && (f.1 == 0 || f.1 == 1)
  {
    forall f | f in ones
      ensures 1 <= f.0 <= n && f.1 == 1 && component[f.0] == c
    {
      assert f.0 in sc.positive;
    }
    forall f | f in zeros
      ensures 1 <= f.0 <= n && f.1 == 0 && component[f.0 + n + 1] == c
    {
      assert f.0 in sc.negative;
    }
    var lits := LiteralsOf(component, n, {c});
    forall code | code in lits
      ensures code in Fixed(ones) + Fixed(zeros)
    {
      if code > 0 {
        var v: nat := code;
        assert v in sc.positive;
        var k :| 0 <= k < |ones| && sc.positive[k] == v;
        assert ones[k] in ones && Code(ones[k]) == code;
      } else {
        var v: nat := 0 - code;
        assert v in sc.negative;
        var k :| 0 <= k < |zeros| && sc.negative[k] == v;
        assert zeros[k] in zeros && Code(zeros[k]) == code;
      }
    }
  }

  lemma LiteralsAdd(component: seq<nat>, n: nat, f: set<nat>, c: nat)
    requires |component| == 2 * n + 2
    ensures LiteralsOf(component, n, f + {c}) == LiteralsOf(component, n, f) + LiteralsOf(component, n, {c})
    ensures c !in f ==> LiteralsOf(component, n, f) !! LiteralsOf(component, n, {c})
  {
  }

  /** The component lists and complements that the phases of the worklist rely on. */
  ghost predicate Tables(s: seq<SC>, pairs: map<nat, nat>, component: seq<nat>, n: nat, co: seq<nat>, x0: nat, x0Bar: nat) {
    && |s| == |co| && |component| == 2 * n + 2 && x0 == component[0] && x0Bar == component[n + 1]
    && (forall c: nat | c < |co| :: ListsComponent(s[c], component, n, c, |component|) && NoRepeats(s[c]))
    && (forall c: nat | c < |co| && Free(co, x0, x0Bar, c) :: FixOptimized.PairOf(pairs, c) == co[c])
  }

  ghost predicate FixedList(ret: seq<Fixing>, component: seq<nat>, n: nat, f: set<nat>)
    requires |component| == 2 * n + 2
  {
    && Fixed(ret) == {0} + LiteralsOf(component, n, f) && Distinct(ret)
    && forall x | x in ret :: 1 <= x.0 <= n && (x.1 == 0 || x.1 == 1)
  }

  ghost function VisitedTo(visited: seq<int>, i: nat): (s: set<nat>)
    requires i <= |visited|
    ensures forall c: nat :: c in s <==> c < i && visited[c] == 2
  {
    set c: nat | c in UpTo(i) && visited[c] == 2
  }

  lemma VisitedStep(visited: seq<int>, i: nat)
    requires i < |visited|
    ensures visited[i] == 2 ==> VisitedTo(visited, i + 1) == VisitedTo(visited, i) + {i}
    ensures visited[i] != 2 ==> VisitedTo(visited, i + 1) == VisitedTo(visited, i)
    ensures VisitedTo(visited, i) <= VisitedTo(visited, |visited|)
  {
  }

  /** Taking component `i` and its complement out of the count of undecided components. */
  lemma Decide(cg: Csr<int>, co: seq<nat>, x0: nat, x0Bar: nat, f: set<nat>, done: set<nat>, before: seq<int>, after: seq<int>, i: nat)
    requires Skew(cg, co) && i < |co| && Degrees(cg, co, x0, x0Bar, f, done, before)
    requires after == before[i := -1][co[i] := -1]
    ensures Degrees(cg, co, x0, x0Bar, f + {i}, done, after)
    ensures |Pending(after)| <= |Pending(before)|
  {
    forall c: nat | c < |co|
      ensures Decided(co, f + {i}, c) <==> Decided(co, f, c) || c == i || c == co[i]
    {
    }
    assert Pending(after) == Pending(before) - {i} - {co[i]};
  }

  method FixVisited(visited: seq<int>, s: seq<SC>, pairs: map<nat, nat>, outDegrees0: seq<int>, q: seq<nat>,
                    ghost cg: Csr<int>, ghost co: seq<nat>, ghost component: seq<nat>, ghost n: nat, ghost x0: nat, ghost x0Bar: nat)
    returns (ret: seq<Fixing>, outDegrees: seq<int>)
    requires Skew(cg, co) && |visited| == |co| && Tables(s, pairs, component, n, co, x0, x0Bar)
    requires forall c: nat | c < |co| && visited[c] == 2 :: Free(co, x0, x0Bar, c)
    requires Degrees(cg, co, x0, x0Bar, {}, {}, outDegrees0) && Queued(outDegrees0, q)
    ensures FixedList(ret, component, n, VisitedTo(visited, |visited|))
    ensures Degrees(cg, co, x0, x0Bar, VisitedTo(visited, |visited|), {}, outDegrees) && Queued(outDegrees, q)
  {
    ret, outDegrees := [], outDegrees0;
    assert VisitedTo(visited, 0) == {};
    for i := 0 to |visited|
      invariant FixedList(ret, component, n, VisitedTo(visited, i))
      invariant Degrees(cg, co, x0, x0Bar, VisitedTo(visited, i), {}, outDegrees) && Queued(outDegrees, q)
    {
      ret, outDegrees := FixIfVisited(ret, i, visited, s[i], pairs, outDegrees, q, cg, co, component, n, x0, x0Bar);
    }
  }

  method FixIfVisited(ret0: seq<Fixing>, i: nat, visited: seq<int>, sc: SC, pairs: map<nat, nat>, outDegrees0: seq<int>, ghost q: seq<nat>,
                      ghost cg: Csr<int>, ghost co: seq<nat>, ghost component: seq<nat>, ghost n: nat, ghost x0: nat, ghost x0Bar: nat)
    returns (ret: seq<Fixing>, outDegrees: seq<int>)
    requires Skew(cg, co) && i < |co| == |visited|
    requires visited[i] == 2 ==> Free(co, x0, x0Bar, i) && FixOptimized.PairOf(pairs, i) == co[i]
    requires |component| == 2 * n + 2 && x0 == component[0] && x0Bar == component[n + 1]
    requires ListsComponent(sc, component, n, i, |component|) && NoRepeats(sc)
    requires FixedList(ret0, component, n, VisitedTo(visited, i))
    requires Degrees(cg, co, x0, x0Bar, VisitedTo(visited, i), {}, outDegrees0) && Queued(outDegrees0, q)
    ensures FixedList(ret, component, n, VisitedTo(visited, i + 1))
    ensures Degrees(cg, co, x0, x0Bar, VisitedTo(visited, i + 1), {}, outDegrees) && Queued(outDegrees, q)
  {
    ret, outDegrees := ret0, outDegrees0;
    VisitedStep(visited, i);
    if visited[i] == 2 {
      ret, outDegrees := FixOneVisited(ret, i, sc, FixOptimized.PairOf(pairs, i), outDegrees, q, cg, co, component, n, x0, x0Bar, VisitedTo(visited, i));
    }
  }

  lemma VisitedAreFree(visited: seq<int>, cg: Csr<int>, co: seq<nat>, x0: nat, x0Bar: nat)
    requires Skew(cg, co) && |visited| == |co|
    requires FixedOk(cg, co, x0, x0Bar, VisitedTo(visited, |visited|))
    ensures forall c: nat | c < |co| && visited[c] == 2 :: Free(co, x0, x0Bar, c)
  {
    forall c: nat | c < |co| && visited[c] == 2
      ensures Free(co, x0, x0Bar, c)
    {
      assert c in VisitedTo(visited, |visited|);
    }
  }

  /** Fixes one component that the search reached and takes its pair out of the count. */
  method FixOneVisited(ret0: seq<Fixing>, i: nat, sc: SC, complement: nat, outDegrees0: seq<int>, ghost q: seq<nat>,
                       ghost cg: Csr<int>, ghost co: seq<nat>, ghost component: seq<nat>, ghost n: nat, ghost x0: nat, ghost x0Bar: nat, ghost f: set<nat>)
    returns (ret: seq<Fixing>, outDegrees: seq<int>)
    requires Skew(cg, co) && i < |co| && Free(co, x0, x0Bar, i) && complement == co[i]
    requires |component| == 2 * n + 2 && x0 == component[0] && x0Bar == component[n + 1]
    requires ListsComponent(sc, component, n, i, |component|) && NoRepeats(sc) && i !in f
    requires FixedList(ret0, component, n, f)
    requires Degrees(cg, co, x0, x0Bar, f, {}, outDegrees0) && Queued(outDegrees0, q)
    ensures FixedList(ret, component, n, f + {i})
    ensures Degrees(cg, co, x0, x0Bar, f + {i}, {}, outDegrees) && Queued(outDegrees, q)
  {
    LiteralsAdd(component, n, f, i);
    ret := FixComponent(ret0, sc, component, n, i);
    outDegrees := outDegrees0[i := -1];
    outDegrees := outDegrees[complement := -1];
    Decide(cg, co, x0, x0Bar, f, {}, outDegrees0, outDegrees, i);
  }

  lemma DecidedGrows(cg: Csr<int>, co: seq<nat>, x0: nat, x0Bar: nat, f: set<nat>, part: set<nat>, i: nat)
    requires Skew(cg, co) && FixedOk(cg, co, x0, x0Bar, f) && part <= f && i in f && i !in part
    ensures i !in DecidedSet(co, part) && co[i] !in DecidedSet(co, part) && i != co[i]
    ensures DecidedSet(co, part + {i}) == DecidedSet(co, part) + {i} + {co[i]}
  {
    forall c: nat | c < |co|
      ensures Decided(co, part + {i}, c) <==> Decided(co, part, c) || c == i || c == co[i]
    {
    }
  }

  /** One component counts as decided from now on. */
  method CountDecided(tg: Csr<int>, i: nat, outDegrees0: seq<int>, q0: seq<nat>,
                   ghost cg: Csr<int>, ghost co: seq<nat>, ghost x0: nat, ghost x0Bar: nat, ghost f: set<nat>, ghost done: set<nat>)
    returns (outDegrees: seq<int>, q: seq<nat>)
    requires Skew(cg, co) && IsTranspose(tg, cg) && i < |co| && i !in done
    requires Degrees(cg, co, x0, x0Bar, f, done, outDegrees0) && Queued(outDegrees0, q0)
    ensures Degrees(cg, co, x0, x0Bar, f, done + {i}, outDegrees) && Queued(outDegrees, q)
    ensures |q| + |Pending(outDegrees)| <= |q0| + |Pending(outDegrees0)|
  {
    outDegrees, q := DecrementPredecessors(tg, i, outDegrees0, q0, cg, done);
  }

  /** Both members of a newly decided pair of components leave the out-degrees. */
  method SettlePair(tg: Csr<int>, i: nat, complement: nat, outDegrees0: seq<int>, q0: seq<nat>,
                    ghost cg: Csr<int>, ghost co: seq<nat>, ghost x0: nat, ghost x0Bar: nat, ghost f: set<nat>, ghost part: set<nat>)
    returns (outDegrees: seq<int>, q: seq<nat>)
    requires Skew(cg, co) && IsTranspose(tg, cg) && i < |co| && complement == co[i]
    requires FixedOk(cg, co, x0, x0Bar, f) && part <= f && i in f && i !in part
    requires Degrees(cg, co, x0, x0Bar, f, DecidedSet(co, part), outDegrees0) && Queued(outDegrees0, q0)
    ensures Degrees(cg, co, x0, x0Bar, f, DecidedSet(co, part + {i}), outDegrees) && Queued(outDegrees, q)
    ensures |q| + |Pending(outDegrees)| <= |q0| + |Pending(outDegrees0)|
  {
    ghost var done := DecidedSet(co, part);
    DecidedGrows(cg, co, x0, x0Bar, f, part, i);
    outDegrees, q := CountDecided(tg, i, outDegrees0, q0, cg, co, x0, x0Bar, f, done);
    outDegrees, q := CountDecided(tg, complement, outDegrees, q, cg, co, x0, x0Bar, f, done + {i});
  }

  method SettleVisited(visited: seq<int>, pairs: map<nat, nat>, tg: Csr<int>, outDegrees0: seq<int>, q0: seq<nat>,
                       ghost cg: Csr<int>, ghost co: seq<nat>, ghost x0: nat, ghost x0Bar: nat)
    returns (outDegrees: seq<int>, q: seq<nat>)
    requires Skew(cg, co) && |visited| == |co| && IsTranspose(tg, cg)
    requires forall c: nat | c < |co| && Free(co, x0, x0Bar, c) :: FixOptimized.PairOf(pairs, c) == co[c]
    requires FixedOk(cg, co, x0, x0Bar, VisitedTo(visited, |visited|))
    requires Degrees(cg, co, x0, x0Bar, VisitedTo(visited, |visited|), {}, outDegrees0) && Queued(outDegrees0, q0)
    ensures var f := VisitedTo(visited, |visited|);
            Degrees(cg, co, x0, x0Bar, f, DecidedSet(co, f), outDegrees) && Queued(outDegrees, q)
  {
    outDegrees, q := outDegrees0, q0;
    ghost var f := VisitedTo(visited, |visited|);
    ghost var part: set<nat> := {};
    assert DecidedSet(co, part) == {};
    for i := 0 to |visited|
      invariant part == VisitedTo(visited, i)
      invariant Degrees(cg, co, x0, x0Bar, f, DecidedSet(co, part), outDegrees) && Queued(outDegrees, q)
    {
      VisitedStep(visited, i);
      if visited[i] == 2 {
        assert i in f && Free(co, x0, x0Bar, i);
        outDegrees, q := SettlePair(tg, i, FixOptimized.PairOf(pairs, i), outDegrees, q, cg, co, x0, x0Bar, f, part);
        part := part + {i};
      }
    }
  }

  /** A free undecided component all of whose successors are decided may be fixed: a successor cannot be the
  complement of a fixed component, or the mirrored arc would have decided this component already. */
  lemma MayFix(cg: Csr<int>, co: seq<nat>, x0: nat, x0Bar: nat, f: set<nat>, c: nat)
    requires Skew(cg, co) && FixedOk(cg, co, x0, x0Bar, f) && c < |co|
    requires Free(co, x0, x0Bar, c) && !Decided(co, f, c) && Out(cg, c) <= DecidedSet(co, f)
    ensures FixedOk(cg, co, x0, x0Bar, f + {c})
  {
    forall d | d in Out(cg, c)
      ensures d in f || co[d] in f
      ensures co[c] in Out(cg, co[d])
    {
      assert d in DecidedSet(co, f);
    }
  }

  method FixVariables(classified: seq<int>, s: seq<SC>, cg: Csr<int>, visited: seq<int>, pairs: map<nat, nat>, x0: nat, x0Bar: nat,
                      ghost co: seq<nat>, ghost component: seq<nat>, ghost n: nat)
    returns (ret: seq<Fixing>, ghost f: set<nat>)
    requires Skew(cg, co) && |visited| == |classified| == |co| && x0 < |co| && x0Bar < |co|
    requires Tables(s, pairs, component, n, co, x0, x0Bar)
    requires forall c: nat | c < |co| :: classified[c] == if co[c] == c then 0 else 1
    requires FixedOk(cg, co, x0, x0Bar, VisitedTo(visited, |visited|))
    ensures FixedOk(cg, co, x0, x0Bar, f) && FixedList(ret, component, n, f)
    ensures VisitedTo(visited, |visited|) <= f
    ensures Exhausted(cg, co, x0, x0Bar, f)
  {
    var tg := Transpose(cg);
    var outDegrees, q := InitialDegrees(classified, cg, x0, x0Bar, co);
    VisitedAreFree(visited, cg, co, x0, x0Bar);
    ret, outDegrees := FixVisited(visited, s, pairs, outDegrees, q, cg, co, component, n, x0, x0Bar);
    outDegrees, q := SettleVisited(visited, pairs, tg, outDegrees, q, cg, co, x0, x0Bar);
    f := VisitedTo(visited, |visited|);
    while q != []
      invariant FixedOk(cg, co, x0, x0Bar, f) && FixedList(ret, component, n, f)
      invariant VisitedTo(visited, |visited|) <= f
      invariant Degrees(cg, co, x0, x0Bar, f, DecidedSet(co, f), outDegrees) && Queued(outDegrees, q)
      decreases |q| + |Pending(outDegrees)|
    {
      ret, outDegrees, q, f := FixNext(ret, outDegrees, q, s, pairs, tg, cg, co, component, n, x0, x0Bar, f);
    }
    forall c: nat | c < |co| && Free(co, x0, x0Bar, c) && !Decided(co, f, c)
      ensures !(Out(cg, c) <= DecidedSet(co, f))
    {
      var left := Out(cg, c) - DecidedSet(co, f);
      assert |left| != 0;
      var d :| d in left;
    }
  }

  method FixNext(ret0: seq<Fixing>, outDegrees0: seq<int>, q0: seq<nat>, s: seq<SC>, pairs: map<nat, nat>, tg: Csr<int>,
                 ghost cg: Csr<int>, ghost co: seq<nat>, ghost component: seq<nat>, ghost n: nat, ghost x0: nat, ghost x0Bar: nat,
                 ghost f0: set<nat>)
    returns (ret: seq<Fixing>, outDegrees: seq<int>, q: seq<nat>, ghost f: set<nat>)
    requires Skew(cg, co) && Tables(s, pairs, component, n, co, x0, x0Bar) && IsTranspose(tg, cg) && q0 != []
    requires FixedOk(cg, co, x0, x0Bar, f0) && FixedList(ret0, component, n, f0)
    requires Degrees(cg, co, x0, x0Bar, f0, DecidedSet(co, f0), outDegrees0) && Queued(outDegrees0, q0)
    ensures FixedOk(cg, co, x0, x0Bar, f) && FixedList(ret, component, n, f) && f0 <= f
    ensures Degrees(cg, co, x0, x0Bar, f, DecidedSet(co, f), outDegrees) && Queued(outDegrees, q)
    ensures |q| + |Pending(outDegrees)| < |q0| + |Pending(outDegrees0)|
  {
    ret, outDegrees, f := ret0, outDegrees0, f0;
    var curr := q0[0];
    assert curr in q0;
    q := q0[1..];
    assert forall c | c in q0 && c != curr :: c in q;
    assert forall c | c in q :: c in q0;
    if outDegrees[curr] == 0 {
      DegreeZero(cg, co, x0, x0Bar, f0, outDegrees, curr);
      QueuedWithout(outDegrees, q0, q, curr, co[curr]);
      ret, f := FixCurrent(curr, ret0, s, co, component, n, x0, x0Bar, pairs, f0);
      outDegrees, q := SettleOne(curr, FixOptimized.PairOf(pairs, curr), tg, outDegrees, q, cg, co, x0, x0Bar, f0);
    }
  }

  method FixCurrent(curr: nat, ret0: seq<Fixing>, s: seq<SC>, ghost co: seq<nat>, ghost component: seq<nat>, ghost n: nat,
                    ghost x0: nat, ghost x0Bar: nat, ghost pairs: map<nat, nat>, ghost f0: set<nat>)
    returns (ret: seq<Fixing>, ghost f: set<nat>)
    requires Tables(s, pairs, component, n, co, x0, x0Bar) && curr < |co| && Free(co, x0, x0Bar, curr)
    requires FixedList(ret0, component, n, f0) && curr !in f0
    ensures f == f0 + {curr} && FixedList(ret, component, n, f)
  {
    f := f0 + {curr};
    LiteralsAdd(component, n, f0, curr);
    ret := FixComponent(ret0, s[curr], component, n, curr);
  }

  lemma DegreeZero(cg: Csr<int>, co: seq<nat>, x0: nat, x0Bar: nat, f: set<nat>, outDegrees: seq<int>, c: nat)
    requires Skew(cg, co) && FixedOk(cg, co, x0, x0Bar, f) && c < |co|
    requires Degrees(cg, co, x0, x0Bar, f, DecidedSet(co, f), outDegrees) && outDegrees[c] == 0
    ensures Free(co, x0, x0Bar, c) && !Decided(co, f, c) && FixedOk(cg, co, x0, x0Bar, f + {c})
  {
    DegreeMeans(cg, co, x0, x0Bar, f, DecidedSet(co, f), outDegrees, c);
    MayFix(cg, co, x0, x0Bar, f, c);
  }

  lemma DegreeMeans(cg: Csr<int>, co: seq<nat>, x0: nat, x0Bar: nat, f: set<nat>, done: set<nat>, outDegrees: seq<int>, c: nat)
    requires cg.Valid() && Degrees(cg, co, x0, x0Bar, f, done, outDegrees) && c < |co| && outDegrees[c] == 0
    ensures Free(co, x0, x0Bar, c) && !Decided(co, f, c) && Out(cg, c) <= done
  {
    var left := Out(cg, c) - done;
    assert |left| == 0 && left == {};
    forall d | d in Out(cg, c)
      ensures d in done
    {
      assert d !in left;
    }
  }

  lemma QueuedWithout(outDegrees: seq<int>, q0: seq<nat>, q: seq<nat>, c: nat, d: nat)
    requires Queued(outDegrees, q0) && c < |outDegrees| && d < |outDegrees|
    requires forall x | x in q0 && x != c :: x in q
    requires forall x | x in q :: x in q0
    ensures Queued(outDegrees[c := -1][d := -1], q)
  {
  }

  method SettleOne(curr: nat, complement: nat, tg: Csr<int>, outDegrees0: seq<int>, q0: seq<nat>,
                   ghost cg: Csr<int>, ghost co: seq<nat>, ghost x0: nat, ghost x0Bar: nat, ghost f: set<nat>)
    returns (outDegrees: seq<int>, q: seq<nat>)
    requires Skew(cg, co) && IsTranspose(tg, cg) && curr < |co| && complement == co[curr] != curr
    requires !Decided(co, f, curr) && FixedOk(cg, co, x0, x0Bar, f + {curr})
    requires Degrees(cg, co, x0, x0Bar, f, DecidedSet(co, f), outDegrees0)
    requires Queued(outDegrees0[curr := -1][complement := -1], q0)
    ensures Degrees(cg, co, x0, x0Bar, f + {curr}, DecidedSet(co, f + {curr}), outDegrees) && Queued(outDegrees, q)
    ensures |q| + |Pending(outDegrees)| <= |q0| + |Pending(outDegrees0)|
  {
    outDegrees := outDegrees0[curr := -1];
    outDegrees := outDegrees[complement := -1];
    Decide(cg, co, x0, x0Bar, f, DecidedSet(co, f), outDegrees0, outDegrees, curr);
    outDegrees, q := SettlePair(tg, curr, complement, outDegrees, q0, cg, co, x0, x0Bar, f + {curr}, f);
  }
}
