/** Ising problems, and the flat arrays in which callers pass problems and embeddings. */
module IsingProblems {
  import opened Results
  import opened Sums

  type Edge = (int, int)

  /** One real number per variable; spins are 1 and -1. */
  type Spins = int -> real

  datatype IsingProblem = IsingProblem(h: seq<real>, j: map<Edge, real>)
  {
    /** The couplings are upper triangular, inside the problem and not zero. */
    ghost predicate Valid() {
      forall e: Edge | e in j :: 0 <= e.0 < e.1 < |h| && j[e] != 0.0
    }
  }

  /** The field of a variable; variables beyond the list have none. */
  function FieldAt(h: seq<real>, i: int): real {
    if 0 <= i < |h| then h[i] else 0.0
  }

  ghost function LinearEnergy(h: seq<real>, s: Spins): real {
    if h == [] then 0.0 else
      var i := |h| - 1;
      LinearEnergy(h[..i], s) + h[i] * s(i)
  }

  ghost function Both(s: Spins): Edge -> real {
    (e: Edge) => s(e.0) * s(e.1)
  }

  ghost function Energy(p: IsingProblem, s: Spins): real {
    LinearEnergy(p.h, s) + WeightedSum(p.j, Both(s))
  }

  lemma {:induction false} LinearEnergyPut(h: seq<real>, i: nat, v: real, s: Spins)
    requires i < |h|
    ensures LinearEnergy(h[i := v], s) == LinearEnergy(h, s) - h[i] * s(i) + v * s(i)
  {
    var l := |h| - 1;
    if i < l {
      LinearEnergyPut(h[..l], i, v, s);
      assert h[i := v][..l] == h[..l][i := v];
    } else {
      assert h[i := v][..l] == h[..l];
    }
  }

  lemma {:induction false} LinearEnergyZeros(h: seq<real>, n: nat, s: Spins)
    ensures LinearEnergy(h + seq(n, _ => 0.0), s) == LinearEnergy(h, s)
  {
    if n == 0 {
      assert h + seq(n, _ => 0.0) == h;
    } else {
      LinearEnergyZeros(h, n - 1, s);
      var g := h + seq(n, _ => 0.0);
      assert g[..|g| - 1] == h + seq(n - 1, _ => 0.0);
    }
  }

  // ---------------------------------------------------------------- problems from arrays of entries

  const INT_MAX := 0x7fff_ffff

  datatype Entry = Entry(i: int, j: int, value: real)

  predicate GoodIndex(e: Entry) {
    0 <= e.i && 0 <= e.j && e.i != INT_MAX && e.j != INT_MAX
  }

  /** What one entry contributes to the energy. */
  ghost function EntryEnergy(e: Entry, s: Spins): real {
    if e.i == e.j then e.value * s(e.i) else e.value * (s(e.i) * s(e.j))
  }

  ghost function EntriesEnergy(elements: seq<Entry>, s: Spins): real {
    if elements == [] then 0.0 else
      EntriesEnergy(elements[..|elements| - 1], s) + EntryEnergy(elements[|elements| - 1], s)
  }

  /** The number of variables the entries speak about, counting a coupling only by its larger index. */
  ghost function Variables(elements: seq<Entry>): (n: nat)
    requires forall k | 0 <= k < |elements| :: GoodIndex(elements[k])
    ensures forall k | 0 <= k < |elements| :: elements[k].i < n && elements[k].j < n
  {
    if elements == [] then 0 else
      var n, e := Variables(elements[..|elements| - 1]), elements[|elements| - 1];
      Larger(n, Larger(e.i, e.j) + 1)
  }

  function Larger(a: int, b: int): int {
    if a < b then b else a
  }

  function Padded(h: seq<real>, n: int): (r: seq<real>)
    ensures |r| == Larger(|h|, n) && h <= r
  {
    if |h| < n then h + seq(n - |h|, _ => 0.0) else h
  }

  /** Upper-triangular keys below `n`. */
  ghost predicate Upper(j: map<Edge, real>, n: int) {
    forall e: Edge | e in j :: 0 <= e.0 < e.1 < n
  }

  lemma EmptyEnergy()
    ensures forall s: Spins :: Energy(IsingProblem([], map[]), s) == 0.0
  {
    forall s: Spins
      ensures Energy(IsingProblem([], map[]), s) == 0.0
    {
      WeightedSumEmpty(Both(s));
    }
  }

  lemma FieldAdded(h: seq<real>, i: nat, v: real, s: Spins)
    ensures var g := Padded(h, i + 1); LinearEnergy(g[i := g[i] + v], s) == LinearEnergy(h, s) + v * s(i)
  {
    var g := Padded(h, i + 1);
    LinearEnergyZeros(h, |g| - |h|, s);
    LinearEnergyPut(g, i, g[i] + v, s);
    Distribute(s(i), g[i], v);
  }

  /** The coupling of an entry under its upper-triangular key. */
  function KeyOf(e: Entry): Edge {
    if e.i > e.j then (e.j, e.i) else (e.i, e.j)
  }

  lemma CouplingAdded(j: map<Edge, real>, e: Entry, s: Spins)
    ensures WeightedSum(AddAt(j, KeyOf(e), e.value), Both(s)) == WeightedSum(j, Both(s)) + e.value * (s(e.i) * s(e.j))
  {
    WeightedSumAdd(j, KeyOf(e), e.value, Both(s));
    assert Both(s)(KeyOf(e)) == s(e.i) * s(e.j);
  }

  method AddField(i: nat, v: real, h0: seq<real>) returns (h: seq<real>)
    ensures |h| == Larger(|h0|, i + 1)
    ensures forall s: Spins :: LinearEnergy(h, s) == LinearEnergy(h0, s) + v * s(i)
  {
    h := Padded(h0, i + 1);
    h := h[i := h[i] + v];
    forall s: Spins
      ensures LinearEnergy(h, s) == LinearEnergy(h0, s) + v * s(i)
    {
      FieldAdded(h0, i, v, s);
    }
  }

  method AddCoupling(e: Entry, j0: map<Edge, real>, max0: int) returns (j: map<Edge, real>, maxJi: int)
    requires GoodIndex(e) && e.i != e.j && max0 >= -1 && Upper(j0, max0 + 1)
    ensures maxJi == Larger(max0, Larger(e.i, e.j)) && Upper(j, maxJi + 1)
    ensures forall s: Spins :: WeightedSum(j, Both(s)) == WeightedSum(j0, Both(s)) + e.value * (s(e.i) * s(e.j))
  {
    var p := KeyOf(e);
    j := AddAt(j0, p, e.value);
    maxJi := Larger(max0, p.1);
    forall s: Spins
      ensures WeightedSum(j, Both(s)) == WeightedSum(j0, Both(s)) + e.value * (s(e.i) * s(e.j))
    {
      CouplingAdded(j0, e, s);
    }
  }

  /** Adds one entry to the problem. */
  method AddEntry(e: Entry, h0: seq<real>, j0: map<Edge, real>, max0: int)
    returns (h: seq<real>, j: map<Edge, real>, maxJi: int)
    requires GoodIndex(e) && max0 >= -1 && Upper(j0, max0 + 1)
    ensures maxJi >= -1 && Upper(j, maxJi + 1)
    ensures Larger(|h|, maxJi + 1) == Larger(Larger(|h0|, max0 + 1), Larger(e.i, e.j) + 1)
    ensures forall s: Spins :: Energy(IsingProblem(h, j), s) == Energy(IsingProblem(h0, j0), s) + EntryEnergy(e, s)
  {
    h, j, maxJi := h0, j0, max0;
    if e.i == e.j {
      h := AddField(e.i, e.value, h);
    } else {
      j, maxJi := AddCoupling(e, j, maxJi);
    }
  }

  /** Equal energy under every assignment, the number of variables, and no explicit zeros. */
  method ToIsingProblem(elements: seq<Entry>) returns (r: Result<IsingProblem>)
    ensures r.Failure? <==> exists k :: 0 <= k < |elements| && !GoodIndex(elements[k])
    ensures r.Success? ==> r.value.Valid() && |r.value.h| == Variables(elements)
    ensures r.Success? ==> forall s: Spins :: Energy(r.value, s) == EntriesEnergy(elements, s)
  {
    var h: seq<real>, j: map<Edge, real>, maxJi := [], map[], -1;
    EmptyEnergy();
    for k := 0 to |elements|
      invariant forall l | 0 <= l < k :: GoodIndex(elements[l])
      invariant maxJi >= -1 && Upper(j, maxJi + 1)
      invariant Larger(|h|, maxJi + 1) == Variables(elements[..k])
      invariant forall s: Spins :: Energy(IsingProblem(h, j), s) == EntriesEnergy(elements[..k], s)
    {
      var e := elements[k];
      if e.i < 0 || e.j < 0 || e.i == INT_MAX || e.j == INT_MAX {
        return Failure("invalid variable index");
      }
      assert elements[..k + 1][..k] == elements[..k];
      h, j, maxJi := AddEntry(e, h, j, maxJi);
    }
    assert elements[..|elements|] == elements;
    h, j := Finish(h, j, maxJi);
    r := Success(IsingProblem(h, j));
  }

  method Finish(h0: seq<real>, j0: map<Edge, real>, maxJi: int) returns (h: seq<real>, j: map<Edge, real>)
    requires Upper(j0, maxJi + 1)
    ensures |h| == Larger(|h0|, maxJi + 1) && IsingProblem(h, j).Valid()
    ensures forall s: Spins :: Energy(IsingProblem(h, j), s) == Energy(IsingProblem(h0, j0), s)
  {
    h := Padded(h0, maxJi + 1);
    forall s: Spins
      ensures LinearEnergy(h, s) == LinearEnergy(h0, s)
    {
      LinearEnergyZeros(h0, |h| - |h0|, s);
    }
    j := EraseZeros(j0);
  }

  method EraseZeros(j0: map<Edge, real>) returns (j: map<Edge, real>)
    ensures forall e: Edge :: e in j <==> e in j0 && j0[e] != 0.0
    ensures forall e: Edge | e in j :: j[e] == j0[e]
    ensures forall s: Spins :: WeightedSum(j, Both(s)) == WeightedSum(j0, Both(s))
  {
    j := j0;
    var rest := j0.Keys;
    while rest != {}
      invariant rest <= j0.Keys
      invariant forall e: Edge :: e in j <==> e in j0 && (e in rest || j0[e] != 0.0)
      invariant forall e: Edge | e in j :: j[e] == j0[e]
      invariant forall s: Spins :: WeightedSum(j, Both(s)) == WeightedSum(j0, Both(s))
    {
      var e: Edge :| e in rest;
      if j[e] == 0.0 {
        ghost var before := j;
        j := j - {e};
        forall s: Spins
          ensures WeightedSum(j, Both(s)) == WeightedSum(before, Both(s))
        {
          WeightedSumRemove(before, e, Both(s));
        }
      }
      rest := rest - {e};
    }
  }

  // ---------------------------------------------------------------- embeddings from arrays of variable numbers

  type Chain = seq<int>

  ghost predicate Ascending(chain: Chain) {
    forall a, b | 0 <= a < b < |chain| :: chain[a] < chain[b]
  }

  /** Entry i of the array is the variable whose chain contains qubit i, or negative. Chains come out ascending,
  and there are as many as the largest entry requires. */
  method DecodeEmbeddings(elements: seq<int>) returns (r: Result<seq<Chain>>)
    requires forall i | 0 <= i < |elements| :: elements[i] <= INT_MAX
    ensures r.Failure? <==> exists i :: 0 <= i < |elements| && elements[i] == INT_MAX
    ensures r.Success? ==> forall i | 0 <= i < |elements| :: elements[i] < |r.value|
    ensures r.Success? && r.value != [] ==> exists i :: 0 <= i < |elements| && elements[i] == |r.value| - 1
    ensures r.Success? ==> forall c | 0 <= c < |r.value| :: Collects(r.value[c], elements, |elements|, c)
  {
    if elements == [] {
      return Success([]);
    }
    var maxEmb := elements[0];
    for i := 1 to |elements|
      invariant forall k | 0 <= k < i :: elements[k] <= maxEmb
      invariant exists k :: 0 <= k < i && elements[k] == maxEmb
    {
      if elements[i] > maxEmb {
        maxEmb := elements[i];
      }
    }
    if maxEmb == INT_MAX {
      return Failure("invalid logical variable index");
    }
    maxEmb := Larger(0, maxEmb + 1);
    var emb: seq<Chain> := seq(maxEmb, _ => []);
    for i := 0 to |elements|
      invariant |emb| == maxEmb
      invariant forall c | 0 <= c < |emb| :: Collects(emb[c], elements, i, c)
    {
      if elements[i] >= 0 {
        var c := elements[i];
        CollectsNext(emb[c], elements, i, c);
        emb := emb[c := emb[c] + [i]];
      }
    }
    r := Success(emb);
  }

  /** The chain lists, in ascending order, the positions before `n` that hold `c`. */
  ghost predicate Collects(chain: Chain, elements: seq<int>, n: nat, c: int)
    requires n <= |elements|
  {
    Ascending(chain) && forall q :: q in chain <==> 0 <= q < n && elements[q] == c
  }

  lemma CollectsNext(chain: Chain, elements: seq<int>, n: nat, c: int)
    requires n < |elements| && Collects(chain, elements, n, c) && elements[n] == c
    ensures Collects(chain + [n], elements, n + 1, c)
  {
    assert forall a | 0 <= a < |chain| :: chain[a] in chain;
    forall q
      ensures q in chain + [n] <==> 0 <= q < n + 1 && elements[q] == c
    {
      assert q in chain + [n] <==> q in chain || q == n;
    }
  }
}
