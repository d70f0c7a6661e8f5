/** The "qp" problem format: the client's coefficient vectors and the server's reading of them. Coefficients are
real numbers; `None` stands for the quiet NaN that marks a qubit out of use. */
module QpProblems {
  import opened Results
  import opened Queues

  type Coupler = (int, int)

  datatype Entry = Entry(i: int, j: int, value: real)

  /** Working qubits and couplers as a solver lists them. */
  datatype SolverInfo = SolverInfo(qubits: seq<int>, couplers: seq<Coupler>)
  {
    /** No qubit is listed twice, and couplers join two different listed qubits, the smaller first. */
    ghost predicate Valid() {
      && (forall a, b | 0 <= a < b < |qubits| :: qubits[a] != qubits[b])
      && (forall c | c in couplers :: c.0 < c.1 && c.0 in qubits && c.1 in qubits)
    }
  }

  // ---------------------------------------------------------------- sums over entries

  ghost function Total(s: seq<Entry>, w: Entry -> real): real {
    if s == [] then 0.0 else Total(s[..|s| - 1], w) + w(s[|s| - 1])
  }

  lemma {:induction false} TotalConcat(s: seq<Entry>, t: seq<Entry>, w: Entry -> real)
    ensures Total(s + t, w) == Total(s, w) + Total(t, w)
    decreases |t|
  {
    if t == [] {
      assert s + t == s;
    } else {
      var l := |t| - 1;
      assert (s + t)[..|s + t| - 1] == s + t[..l];
      TotalConcat(s, t[..l], w);
    }
  }

  ghost function Without(t: seq<Entry>, k: nat): (r: seq<Entry>)
    requires k < |t|
    ensures |r| == |t| - 1
  {
    t[..k] + t[k + 1..]
  }

  lemma WithoutMultiset(t: seq<Entry>, k: nat)
    requires k < |t|
    ensures multiset(Without(t, k)) == multiset(t) - multiset{t[k]}
  {
    assert t == t[..k] + [t[k]] + t[k + 1..];
  }

  lemma SplitAround(t: seq<Entry>, k: nat)
    requires k < |t|
    ensures t == t[..k] + [t[k]] + t[k + 1..]
  {
  }

  lemma WithoutTotal(t: seq<Entry>, k: nat, w: Entry -> real)
    requires k < |t|
    ensures Total(t, w) == Total(Without(t, k), w) + w(t[k])
  {
    SplitAround(t, k);
    TotalMiddle(t[..k], t[k], t[k + 1..], w);
  }

  lemma TotalMiddle(s: seq<Entry>, e: Entry, t: seq<Entry>, w: Entry -> real)
    ensures Total(s + [e] + t, w) == Total(s + t, w) + w(e)
  {
    TotalConcat(s + [e], t, w);
    TotalConcat(s, t, w);
    assert (s + [e])[..|s|] == s;
  }

  /** The order of the entries does not matter. */
  lemma {:induction false} TotalPermuted(s: seq<Entry>, t: seq<Entry>, w: Entry -> real)
    requires multiset(s) == multiset(t)
    ensures Total(s, w) == Total(t, w)
    decreases |s|
  {
    if s != [] {
      var l := |s| - 1;
      assert s[l] in multiset(s);
      assert s[l] in multiset(t);
      var k :| 0 <= k < |t| && t[k] == s[l];
      WithoutMultiset(s, l);
      WithoutMultiset(t, k);
      TotalPermuted(Without(s, l), Without(t, k), w);
      WithoutTotal(s, l, w);
      WithoutTotal(t, k, w);
    } else {
      assert |multiset(t)| == 0;
    }
  }

  ghost function LinearPart(q: int): Entry -> real {
    (e: Entry) => if e.i == e.j && e.i == q then e.value else 0.0
  }

  ghost function QuadraticPart(c: Coupler): Entry -> real {
    (e: Entry) => if e.i != e.j && CouplerOf(e) == c then e.value else 0.0
  }

  function CouplerOf(e: Entry): Coupler {
    if e.i < e.j then (e.i, e.j) else (e.j, e.i)
  }

  lemma {:induction false} TotalZero(s: seq<Entry>, w: Entry -> real)
    requires forall e | e in s :: w(e) == 0.0
    ensures Total(s, w) == 0.0
  {
    if s != [] {
      assert s[|s| - 1] in s;
      TotalZero(s[..|s| - 1], w);
    }
  }

  // ---------------------------------------------------------------- the client

  lemma SwapMultiset(s: seq<Entry>, a: nat, b: nat)
    requires a <= b < |s|
    ensures multiset(s[a := s[b]][b := s[a]]) == multiset(s)
  {
    var once := s[a := s[b]];
    assert multiset(once) == multiset(s) - multiset{s[a]} + multiset{s[b]};
    assert multiset(once[b := s[a]]) == multiset(once) - multiset{once[b]} + multiset{s[a]};
  }

  /** The linear entries among the first `k` stand before position `linEnd`. */
  ghost predicate Split(s: seq<Entry>, k: nat, linEnd: nat) {
    linEnd <= k <= |s| && forall l | 0 <= l < k :: s[l].i == s[l].j <==> l < linEnd
  }

  /** Moves the linear entries to the front of the array. */
  method Partition(problem: array<Entry>) returns (linEnd: nat)
    modifies problem
    ensures multiset(problem[..]) == multiset(old(problem[..]))
    ensures Split(problem[..], problem.Length, linEnd)
  {
    linEnd := 0;
    for k := 0 to problem.Length
      invariant multiset(problem[..]) == multiset(old(problem[..]))
      invariant Split(problem[..], k, linEnd)
    {
      if problem[k].i == problem[k].j {
        ghost var before := problem[..];
        SwapMultiset(before, linEnd, k);
        problem[linEnd], problem[k] := problem[k], problem[linEnd];
        assert problem[..] == before[linEnd := before[k]][k := before[linEnd]];
        linEnd := linEnd + 1;
      }
    }
  }

  ghost predicate Touches(problem: seq<Entry>, q: int) {
    exists e :: e in problem && (e.i == q || e.j == q)
  }

  /** The qubits that occur, all of which must be known. */
  method UsedQubits(problem: seq<Entry>, qubits: set<int>) returns (r: Result<set<int>>)
    ensures r.Failure? <==> exists e :: e in problem && (e.i !in qubits || e.j !in qubits)
    ensures r.Success? ==> forall q :: q in r.value <==> Touches(problem, q)
  {
    var used: set<int> := {};
    for k := 0 to |problem|
      invariant forall e | e in problem[..k] :: e.i in qubits && e.j in qubits
      invariant forall q :: q in used <==> Touches(problem[..k], q)
    {
      var e := problem[k];
      assert problem[..k + 1] == problem[..k] + [e];
      assert e in problem;
      if e.i !in qubits || e.j !in qubits {
        return Failure(if e.i == e.j then "invalid qubit" else "invalid coupler");
      }
      used := used + {e.i};
      used := used + {e.j};
    }
    assert problem[..|problem|] == problem;
    r := Success(used);
  }

  /** Positions of the qubits in the solver's list. */
  ghost predicate Indexed(index: map<int, nat>, qubits: seq<int>) {
    && (forall q :: q in index <==> q in qubits)
    && (forall q | q in index :: index[q] < |qubits| && qubits[index[q]] == q)
  }

  method QubitIndices(qubits: seq<int>) returns (index: map<int, nat>)
    ensures Indexed(index, qubits)
  {
    index := map[];
    for k := 0 to |qubits|
      invariant forall q :: q in index <==> q in qubits[..k]
      invariant forall q | q in index :: index[q] < k && qubits[index[q]] == q
    {
      assert qubits[..k + 1] == qubits[..k] + [qubits[k]];
      index := index[qubits[k] := k];
    }
    assert qubits[..|qubits|] == qubits;
  }

  /** The linear coefficient vector for a set of used qubits. */
  ghost predicate IsLin(lin: seq<Option<real>>, qubits: seq<int>, used: set<int>, problem: seq<Entry>) {
    |lin| == |qubits| && forall k | 0 <= k < |qubits| ::
      lin[k] == if qubits[k] in used then Some(Total(problem, LinearPart(qubits[k]))) else None
  }

  method LinearVector(qubits: seq<int>, index: map<int, nat>, used: set<int>, linear: seq<Entry>) returns (lin: seq<Option<real>>)
    requires Indexed(index, qubits) && (forall a, b | 0 <= a < b < |qubits| :: qubits[a] != qubits[b])
    requires forall e | e in linear :: e.i == e.j && e.i in used
    requires forall q | q in used :: q in index
    ensures IsLin(lin, qubits, used, linear)
  {
    lin := seq(|qubits|, _ => None);
    var rest := used;
    while rest != {}
      invariant rest <= used && |lin| == |qubits|
      invariant forall k | 0 <= k < |qubits| :: lin[k] == if qubits[k] in used && qubits[k] !in rest then Some(0.0) else None
    {
      Inhabited(rest);
      var q :| q in rest;
      lin := lin[index[q] := Some(0.0)];
      rest := rest - {q};
    }
    assert linear[..0] == [];
    for n := 0 to |linear|
      invariant IsLin(lin, qubits, used, linear[..n])
    {
      var e := linear[n];
      assert e in linear && e.i in used;
      assert linear[..n + 1][..n] == linear[..n];
      var at := index[e.i];
      assert qubits[at] == e.i;
      lin := lin[at := Some(lin[at].value + e.value)];
    }
    assert linear[..|linear|] == linear;
  }

  /** Couplers between used qubits, in the solver's order. */
  ghost function Active(couplers: seq<Coupler>, used: set<int>): (r: seq<Coupler>)
  {
    if couplers == [] then [] else
      var l := |couplers| - 1;
      Active(couplers[..l], used) + if couplers[l].0 in used && couplers[l].1 in used then [couplers[l]] else []
  }

  lemma {:induction false} ActiveMembers(couplers: seq<Coupler>, used: set<int>)
    ensures forall c :: c in Active(couplers, used) <==> c in couplers && c.0 in used && c.1 in used
  {
    if couplers != [] {
      var l := |couplers| - 1;
      ActiveMembers(couplers[..l], used);
      assert couplers == couplers[..l] + [couplers[l]];
    }
  }

  /** No coupler between used qubits is listed twice. */
  ghost predicate NoneTwice(couplers: seq<Coupler>, used: set<int>) {
    forall a, b | 0 <= a < b < |couplers| && couplers[a] == couplers[b] :: !(couplers[a].0 in used && couplers[a].1 in used)
  }

  ghost function QubitsOf(problem: seq<Entry>): (used: set<int>)
    ensures IsUsed(used, problem)
  {
    (set e | e in problem :: e.i) + (set e | e in problem :: e.j)
  }

  lemma {:induction false} ActiveDistinct(couplers: seq<Coupler>, used: set<int>)
    requires NoneTwice(couplers, used)
    ensures forall a, b | 0 <= a < b < |Active(couplers, used)| :: Active(couplers, used)[a] != Active(couplers, used)[b]
  {
    if couplers != [] {
      var l := |couplers| - 1;
      ActiveDistinct(couplers[..l], used);
      ActiveMembers(couplers[..l], used);
      assert couplers[l].0 in used && couplers[l].1 in used ==> couplers[l] !in couplers[..l];
    }
  }

  /** Every active coupler has its last position in the list. */
  ghost predicate LastPositions(index: map<Coupler, nat>, active: seq<Coupler>) {
    && (forall c :: c in index <==> c in active)
    && (forall c | c in index :: index[c] < |active| && active[index[c]] == c)
    && (forall c, k | c in index && index[c] < k < |active| :: active[k] != c)
  }

  method CouplerIndices(couplers: seq<Coupler>, used: set<int>) returns (index: map<Coupler, nat>, ci: nat)
    ensures LastPositions(index, Active(couplers, used)) && ci == |Active(couplers, used)|
  {
    index, ci := map[], 0;
    for k := 0 to |couplers|
      invariant LastPositions(index, Active(couplers[..k], used)) && ci == |Active(couplers[..k], used)|
    {
      var c := couplers[k];
      assert couplers[..k + 1][..k] == couplers[..k];
      if c.0 in used && c.1 in used {
        PositionAppended(index, Active(couplers[..k], used), c);
        index := index[c := ci];
        ci := ci + 1;
      }
    }
    assert couplers[..|couplers|] == couplers;
  }

  lemma PositionAppended(index: map<Coupler, nat>, active: seq<Coupler>, c: Coupler)
    requires LastPositions(index, active)
    ensures LastPositions(index[c := |active|], active + [c])
  {
    var more := active + [c];
    assert forall k | 0 <= k < |active| :: more[k] == active[k];
  }

  ghost function Members(s: seq<Coupler>): (m: set<Coupler>)
    ensures forall c :: c in m <==> c in s
  {
    set c | c in s
  }

  /** A list has as many members as places if and only if nothing is listed twice. */
  lemma {:induction false} MemberCount(s: seq<Coupler>)
    ensures |Members(s)| <= |s|
    ensures |Members(s)| == |s| <==> forall a, b | 0 <= a < b < |s| :: s[a] != s[b]
  {
    if s != [] {
      var l := |s| - 1;
      var t, last := s[..l], s[l];
      MemberCount(t);
      assert s == t + [last];
      if last in t {
        assert Members(s) == Members(t);
        var a :| 0 <= a < l && t[a] == last;
        assert s[a] == s[l];
      } else {
        assert Members(s) == Members(t) + {last};
        assert forall a | 0 <= a < l :: t[a] == s[a];
      }
    }
  }

  /** The positions of the active couplers among themselves. */
  ghost predicate CouplersIndexed(index: map<Coupler, nat>, active: seq<Coupler>) {
    && (forall c :: c in index <==> c in active)
    && (forall c | c in index :: index[c] < |active| && active[index[c]] == c)
    && |index| == |active|
  }

  /** The vector has one place per indexed coupler; all indices lie inside if and only if no active coupler is listed twice. */
  lemma IndicesInside(index: map<Coupler, nat>, active: seq<Coupler>)
    requires LastPositions(index, active)
    ensures (forall c | c in index :: index[c] < |index|) <==> forall a, b | 0 <= a < b < |active| :: active[a] != active[b]
    ensures (forall a, b | 0 <= a < b < |active| :: active[a] != active[b]) ==> CouplersIndexed(index, active)
  {
    MemberCount(active);
    assert index.Keys == Members(active);
    assert |index| == |index.Keys|;
    if active != [] {
      var last := active[|active| - 1];
      assert last in index && index[last] == |active| - 1;
    }
  }

  ghost predicate IsQuad(quad: seq<real>, active: seq<Coupler>, problem: seq<Entry>) {
    |quad| == |active| && forall k | 0 <= k < |active| :: quad[k] == Total(problem, QuadraticPart(active[k]))
  }

  method QuadraticVector(ghost active: seq<Coupler>, index: map<Coupler, nat>, quadratic: seq<Entry>) returns (r: Result<seq<real>>)
    requires CouplersIndexed(index, active) && (forall a, b | 0 <= a < b < |active| :: active[a] != active[b])
    requires forall e | e in quadratic :: e.i != e.j
    ensures r.Failure? <==> exists e :: e in quadratic && CouplerOf(e) !in active
    ensures r.Success? ==> IsQuad(r.value, active, quadratic)
  {
    var quad := seq(|index|, _ => 0.0);
    assert quadratic[..0] == [];
    for n := 0 to |quadratic|
      invariant forall e | e in quadratic[..n] :: CouplerOf(e) in active
      invariant IsQuad(quad, active, quadratic[..n])
    {
      var e := quadratic[n];
      assert e in quadratic && e.i != e.j;
      assert quadratic[..n + 1] == quadratic[..n] + [e] && quadratic[..n + 1][..n] == quadratic[..n];
      var c := CouplerOf(e);
      if c !in index {
        return Failure("invalid coupler");
      }
      assert active[index[c]] == c;
      quad := quad[index[c] := quad[index[c]] + e.value];
    }
    assert quadratic[..|quadratic|] == quadratic;
    r := Success(quad);
  }

  datatype Encoded = Encoded(lin: seq<Option<real>>, quad: seq<real>)

  /** Every entry speaks about a listed qubit or coupler. */
  ghost predicate Encodable(problem: seq<Entry>, info: SolverInfo) {
    forall e | e in problem :: e.i in info.qubits && e.j in info.qubits && (e.i != e.j ==> CouplerOf(e) in info.couplers)
  }

  lemma {:induction false} OnlyLinear(s: seq<Entry>, t: seq<Entry>, q: int)
    requires forall e | e in t :: e.i != e.j
    ensures Total(s + t, LinearPart(q)) == Total(s, LinearPart(q))
  {
    TotalConcat(s, t, LinearPart(q));
    TotalZero(t, LinearPart(q));
  }

  lemma {:induction false} OnlyQuadratic(s: seq<Entry>, t: seq<Entry>, c: Coupler)
    requires forall e | e in s :: e.i == e.j
    ensures Total(s + t, QuadraticPart(c)) == Total(t, QuadraticPart(c))
  {
    TotalConcat(s, t, QuadraticPart(c));
    TotalZero(s, QuadraticPart(c));
  }

  /** The two halves of the partitioned problem give the vectors of the whole problem, in any order. */
  lemma HalvesGiveWhole(problem: seq<Entry>, linear: seq<Entry>, quadratic: seq<Entry>, info: SolverInfo, used: set<int>, e: Encoded)
    requires multiset(problem) == multiset(linear + quadratic)
    requires (forall e | e in linear :: e.i == e.j) && (forall e | e in quadratic :: e.i != e.j)
    requires IsLin(e.lin, info.qubits, used, linear) && IsQuad(e.quad, Active(info.couplers, used), quadratic)
    ensures IsLin(e.lin, info.qubits, used, problem) && IsQuad(e.quad, Active(info.couplers, used), problem)
  {
    forall k | 0 <= k < |info.qubits|
      ensures Total(problem, LinearPart(info.qubits[k])) == Total(linear, LinearPart(info.qubits[k]))
    {
      TotalPermuted(problem, linear + quadratic, LinearPart(info.qubits[k]));
      OnlyLinear(linear, quadratic, info.qubits[k]);
    }
    var active := Active(info.couplers, used);
    forall k | 0 <= k < |active|
      ensures Total(problem, QuadraticPart(active[k])) == Total(quadratic, QuadraticPart(active[k]))
    {
      TotalPermuted(problem, linear + quadratic, QuadraticPart(active[k]));
      OnlyQuadratic(linear, quadratic, active[k]);
    }
  }

  /** The qubits the problem uses. */
  ghost predicate IsUsed(used: set<int>, problem: seq<Entry>) {
    forall q :: q in used <==> Touches(problem, q)
  }

  lemma SameMembers(s: seq<Entry>, t: seq<Entry>)
    requires multiset(s) == multiset(t)
    ensures forall e :: e in s <==> e in t
  {
    assert forall e :: e in s <==> e in multiset(s);
    assert forall e :: e in t <==> e in multiset(t);
  }

  /** Between used qubits a coupler is active exactly when the solver has it. */
  lemma ActiveIfListed(problem: seq<Entry>, quadratic: seq<Entry>, info: SolverInfo, used: set<int>)
    requires IsUsed(used, problem) && forall e | e in quadratic :: e in problem && e.i != e.j
    ensures forall e | e in quadratic :: CouplerOf(e) in Active(info.couplers, used) <==> CouplerOf(e) in info.couplers
  {
    ActiveMembers(info.couplers, used);
    forall e | e in quadratic
      ensures CouplerOf(e) in Active(info.couplers, used) <==> CouplerOf(e) in info.couplers
    {
      assert e in problem;
      assert Touches(problem, e.i) && Touches(problem, e.j);
    }
  }

  lemma ActiveIndexed(couplers: seq<Coupler>, used: set<int>, problem: seq<Entry>, index: map<Coupler, nat>)
    requires IsUsed(used, problem) && NoneTwice(couplers, QubitsOf(problem)) && LastPositions(index, Active(couplers, used))
    ensures CouplersIndexed(index, Active(couplers, used))
    ensures var active := Active(couplers, used); forall a, b | 0 <= a < b < |active| :: active[a] != active[b]
  {
    SameSet(used, QubitsOf(problem));
    ActiveDistinct(couplers, used);
    IndicesInside(index, Active(couplers, used));
  }

  /** The vectors from the two halves of the problem. */
  method EncodeHalves(linear: seq<Entry>, quadratic: seq<Entry>, info: SolverInfo) returns (r: Result<Encoded>, ghost used: set<int>)
    requires info.Valid() && NoneTwice(info.couplers, QubitsOf(linear + quadratic))
    requires (forall e | e in linear :: e.i == e.j) && (forall e | e in quadratic :: e.i != e.j)
    ensures r.Failure? <==> !Encodable(linear + quadratic, info)
    ensures r.Success? ==> IsUsed(used, linear + quadratic)
    ensures r.Success? ==> IsLin(r.value.lin, info.qubits, used, linear) && IsQuad(r.value.quad, Active(info.couplers, used), quadratic)
  {
    ghost var whole := linear + quadratic;
    used := {};
    var qubitIndices := QubitIndices(info.qubits);
    var usedQubits := UsedQubits(linear + quadratic, qubitIndices.Keys);
    if usedQubits.Failure? {
      return Failure(usedQubits.message), used;
    }
    used := usedQubits.value;
    forall e | e in linear
      ensures e.i in used
    {
      assert e in whole;
      assert Touches(whole, e.i);
    }
    forall q | q in used
      ensures q in qubitIndices
    {
      assert Touches(whole, q);
    }
    var lin := LinearVector(info.qubits, qubitIndices, usedQubits.value, linear);
    var couplerIndices, ci := CouplerIndices(info.couplers, usedQubits.value);
    ActiveIndexed(info.couplers, used, whole, couplerIndices);
    ActiveIfListed(whole, quadratic, info, used);
    var quad := QuadraticVector(Active(info.couplers, used), couplerIndices, quadratic);
    if quad.Failure? {
      ghost var e :| e in quadratic && CouplerOf(e) !in Active(info.couplers, used);
      assert e in whole;
      return Failure(quad.message), used;
    }
    r := Success(Encoded(lin, quad.value));
  }

  lemma HalvesSplit(s: seq<Entry>, linEnd: nat)
    requires Split(s, |s|, linEnd)
    ensures (forall e | e in s[..linEnd] :: e.i == e.j) && (forall e | e in s[linEnd..] :: e.i != e.j)
  {
  }

  /** The problem is partitioned in place and then turned into the two vectors. */
  method EncodeProblem(problem: array<Entry>, info: SolverInfo) returns (r: Result<Encoded>, ghost used: set<int>)
    requires info.Valid() && NoneTwice(info.couplers, QubitsOf(problem[..]))
    modifies problem
    ensures r.Failure? <==> !Encodable(old(problem[..]), info)
    ensures r.Success? ==> IsUsed(used, old(problem[..]))
    ensures r.Success? ==> IsLin(r.value.lin, info.qubits, used, old(problem[..]))
    ensures r.Success? ==> IsQuad(r.value.quad, Active(info.couplers, used), old(problem[..]))
  {
    ghost var original := problem[..];
    var linEnd := Partition(problem);
    var linear, quadratic := problem[..linEnd], problem[linEnd..];
    assert problem[..] == linear + quadratic;
    HalvesSplit(problem[..], linEnd);
    SameMembers(original, linear + quadratic);
    assert QubitsOf(original) == QubitsOf(linear + quadratic);
    r, used := EncodeHalves(linear, quadratic, info);
    if r.Success? {
      HalvesGiveWhole(original, linear, quadratic, info, used, r.value);
    }
  }

  // ---------------------------------------------------------------- the server

  /** The qubits with a coefficient. */
  ghost function ActiveQubits(lin: seq<Option<real>>): (s: set<int>)
    ensures forall q :: q in s <==> 0 <= q < |lin| && lin[q].Some?
  {
    set q | 0 <= q < |lin| && lin[q].Some?
  }

  /** `enumerate(lin)` without the NaNs, then the couplers between active qubits zipped with `quad`. */
  ghost function DecodeProblem(e: Encoded, numQubits: nat, couplers: seq<Coupler>): (r: Result<map<Coupler, real>>) {
    if |e.lin| != numQubits then Failure("lin bytes have incorrect length")
    else
      var qubits := ActiveQubits(e.lin);
      var active := Active(couplers, qubits);
      if |e.quad| != |active| then Failure("quad bytes have incorrect length")
      else Success(Diagonal(e.lin) + Zip(active, e.quad))
  }

  ghost function Zip(active: seq<Coupler>, quad: seq<real>): (m: map<Coupler, real>)
    requires |quad| == |active|
  {
    if active == [] then map[] else
      var l := |active| - 1;
      Zip(active[..l], quad[..l])[active[l] := quad[l]]
  }

  lemma {:induction false} ZipHolds(active: seq<Coupler>, quad: seq<real>)
    requires |quad| == |active| && forall a, b | 0 <= a < b < |active| :: active[a] != active[b]
    ensures forall c :: c in Zip(active, quad) <==> c in active
    ensures forall k | 0 <= k < |active| :: Zip(active, quad)[active[k]] == quad[k]
  {
    if active != [] {
      var l := |active| - 1;
      ZipHolds(active[..l], quad[..l]);
      assert active == active[..l] + [active[l]];
    }
  }

  /** What the server should see: for every used qubit the sum of its linear entries, for every coupler between
  used qubits the sum of its quadratic entries. */
  ghost predicate Represents(m: map<Coupler, real>, problem: seq<Entry>, couplers: seq<Coupler>) {
    && (forall q: int :: (q, q) in m <==> Touches(problem, q))
    && (forall q: int | (q, q) in m :: m[(q, q)] == Total(problem, LinearPart(q)))
    && (forall c: Coupler | c.0 != c.1 :: c in m <==> c in couplers && Touches(problem, c.0) && Touches(problem, c.1))
    && (forall c: Coupler | c.0 != c.1 && c in m :: m[c] == Total(problem, QuadraticPart(c)))
  }

  ghost function Diagonal(lin: seq<Option<real>>): (m: map<Coupler, real>)
    ensures forall c: Coupler :: c in m <==> c.0 == c.1 && c.0 in ActiveQubits(lin)
    ensures forall q: int | q in ActiveQubits(lin) :: m[(q, q)] == lin[q].value
  {
    map q | q in ActiveQubits(lin) :: (q, q) := lin[q].value
  }

  lemma ActiveIsUsed(problem: seq<Entry>, qubits: seq<int>, lin: seq<Option<real>>, used: set<int>)
    requires (forall k | 0 <= k < |qubits| :: qubits[k] == k) && forall q | q in used :: q in qubits
    requires IsLin(lin, qubits, used, problem)
    ensures ActiveQubits(lin) == used
    ensures forall q | q in used :: lin[q].value == Total(problem, LinearPart(q))
  {
    forall q
      ensures q in ActiveQubits(lin) <==> q in used
    {
      assert 0 <= q < |lin| ==> qubits[q] == q;
    }
    SameSet(ActiveQubits(lin), used);
  }

  lemma ZipSums(problem: seq<Entry>, active: seq<Coupler>, quad: seq<real>)
    requires IsQuad(quad, active, problem) && forall a, b | 0 <= a < b < |active| :: active[a] != active[b]
    ensures forall c :: c in Zip(active, quad) <==> c in active
    ensures forall c | c in active :: Zip(active, quad)[c] == Total(problem, QuadraticPart(c))
  {
    ZipHolds(active, quad);
    forall c | c in active
      ensures Zip(active, quad)[c] == Total(problem, QuadraticPart(c))
    {
      var k :| 0 <= k < |active| && active[k] == c;
    }
  }

  lemma UnionRepresents(problem: seq<Entry>, couplers: seq<Coupler>, used: set<int>, lin: seq<Option<real>>, active: seq<Coupler>, quad: map<Coupler, real>)
    requires IsUsed(used, problem) && ActiveQubits(lin) == used
    requires forall q | q in used :: lin[q].value == Total(problem, LinearPart(q))
    requires (forall c :: c in quad <==> c in active) && forall c | c in active :: quad[c] == Total(problem, QuadraticPart(c))
    requires (forall c :: c in active <==> c in couplers && c.0 in used && c.1 in used) && forall c | c in couplers :: c.0 < c.1
    ensures Represents(Diagonal(lin) + quad, problem, couplers)
  {
  }

  /** When client and server list the same couplers in the same order and the qubits are numbered from 0, the server
  reads back the sums of the client's entries. */
  lemma ServerReadsSums(problem: seq<Entry>, info: SolverInfo, e: Encoded, used: set<int>)
    requires info.Valid() && NoneTwice(info.couplers, used) && forall k | 0 <= k < |info.qubits| :: info.qubits[k] == k
    requires Encodable(problem, info) && IsUsed(used, problem)
    requires IsLin(e.lin, info.qubits, used, problem) && IsQuad(e.quad, Active(info.couplers, used), problem)
    ensures DecodeProblem(e, |info.qubits|, info.couplers).Success?
    ensures Represents(DecodeProblem(e, |info.qubits|, info.couplers).value, problem, info.couplers)
  {
    forall q | q in used
      ensures q in info.qubits
    {
      assert Touches(problem, q);
    }
    ActiveIsUsed(problem, info.qubits, e.lin, used);
    var active := Active(info.couplers, used);
    ActiveMembers(info.couplers, used);
    ActiveDistinct(info.couplers, used);
    ZipSums(problem, active, e.quad);
    UnionRepresents(problem, info.couplers, used, e.lin, active, Zip(active, e.quad));
  }
}
