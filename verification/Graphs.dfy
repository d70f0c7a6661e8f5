/** Reachability in a graph stored as a sparse matrix; an entry with a nonzero value is an arc. */
module Graphs {
  import opened CompressedMatrices

  ghost predicate IsArc(g: Csr<int>, u: nat, v: nat)
    requires g.Valid()
  {
    (u, v) in g.View() && g.View()[(u, v)] != 0
  }

  /** No arc leaves `c`. */
  ghost predicate Closed(g: Csr<int>, c: set<nat>)
    requires g.Valid()
  {
    forall i: nat, k: nat | g.InRow(i, k) && i in c && k < |g.values| && g.values[k] != 0 :: g.colIndices[k] in c
  }

  /** `v` belongs to every closed set that contains `u`. */
  ghost predicate Reaches(g: Csr<int>, u: nat, v: nat)
    requires g.Valid()
  {
    forall c: set<nat> | Closed(g, c) && u in c :: v in c
  }

  ghost predicate IsPath(g: Csr<int>, p: seq<nat>)
    requires g.Valid()
  {
    |p| > 0 && forall i, j | 0 <= i && j == i + 1 && j < |p| :: IsArc(g, p[i], p[j])
  }

  ghost predicate HasPath(g: Csr<int>, u: nat, v: nat)
    requires g.Valid()
  {
    exists p :: IsPath(g, p) && p[0] == u && p[|p| - 1] == v
  }

  lemma ArcAt(g: Csr<int>, i: nat, k: nat)
    requires g.Valid() && g.InRow(i, k) && k < |g.values| && g.values[k] != 0
    ensures IsArc(g, i, g.colIndices[k])
  {
    g.RowIs(i, k);
    g.ViewAt(k);
  }

  lemma ClosedArc(g: Csr<int>, c: set<nat>, u: nat, v: nat)
    requires g.Valid() && Closed(g, c) && IsArc(g, u, v) && u in c
    ensures v in c
  {
    var k := g.IndexOf((u, v));
    assert g.InRow(u, k);
  }

  lemma ClosedIf(g: Csr<int>, c: set<nat>)
    requires g.Valid() && forall u: nat, v: nat | u in c && IsArc(g, u, v) :: v in c
    ensures Closed(g, c)
  {
    forall i: nat, k: nat | g.InRow(i, k) && i in c && k < |g.values| && g.values[k] != 0
      ensures g.colIndices[k] in c
    {
      ArcAt(g, i, k);
    }
  }

  lemma PathExtends(g: Csr<int>, u: nat, a: nat, b: nat)
    requires g.Valid() && HasPath(g, u, a) && IsArc(g, a, b)
    ensures HasPath(g, u, b)
  {
    var p :| IsPath(g, p) && p[0] == u && p[|p| - 1] == a;
    var q := p + [b];
    forall i, j | 0 <= i && j == i + 1 && j < |q|
      ensures IsArc(g, q[i], q[j])
    {
      assert i < |p| - 1 ==> IsArc(g, p[i], p[j]);
    }
    assert IsPath(g, q);
  }

  /** Being in every closed set is having a path. */
  lemma ReachesIffPath(g: Csr<int>, u: nat, v: nat)
    requires g.Valid() && g.numRows == g.numCols && u < g.numRows
    ensures Reaches(g, u, v) <==> HasPath(g, u, v)
  {
    if Reaches(g, u, v) {
      var c := set w: nat | w < g.numRows && HasPath(g, u, w);
      assert IsPath(g, [u]);
      forall a: nat, b: nat | a in c && IsArc(g, a, b)
        ensures b in c
      {
        PathExtends(g, u, a, b);
        var k := g.IndexOf((a, b));
      }
      ClosedIf(g, c);
    }
    if HasPath(g, u, v) {
      var p :| IsPath(g, p) && p[0] == u && p[|p| - 1] == v;
      forall c: set<nat> | Closed(g, c) && u in c
        ensures v in c
      {
        PathStaysInClosed(g, c, p);
      }
    }
  }

  lemma {:induction false} PathStaysInClosed(g: Csr<int>, c: set<nat>, p: seq<nat>)
    requires g.Valid() && Closed(g, c) && IsPath(g, p) && p[0] in c
    ensures p[|p| - 1] in c
  {
    if |p| > 1 {
      PathStaysInClosed(g, c, p[..|p| - 1]);
      ClosedArc(g, c, p[|p| - 2], p[|p| - 1]);
    }
  }

  lemma ReachesTransitive(g: Csr<int>, u: nat, v: nat, w: nat)
    requires g.Valid() && Reaches(g, u, v) && Reaches(g, v, w)
    ensures Reaches(g, u, w)
  {
  }

  /** Everything `visited` marks is reachable, and rows outside `todo` have all their successors marked. */
  ghost predicate Explored(g: Csr<int>, marked: set<nat>, todo: set<nat>, s: nat)
    requires g.Valid()
  {
    && s in marked
    && (forall v | v in marked :: v < g.numRows && Reaches(g, s, v))
    && (forall i: nat, k: nat | g.InRow(i, k) && i in marked && i !in todo && k < |g.values| && g.values[k] != 0 ::
          g.colIndices[k] in marked)
  }

  lemma ExploredAll(g: Csr<int>, marked: set<nat>, todo: set<nat>, s: nat)
    requires g.Valid() && Explored(g, marked, todo, s) && marked !! todo
    ensures forall v :: v in marked <==> Reaches(g, s, v)
  {
    assert Closed(g, marked);
  }

  lemma ReachesStep(g: Csr<int>, s: nat, i: nat, k: nat)
    requires g.Valid() && Reaches(g, s, i) && g.InRow(i, k) && k < |g.values| && g.values[k] != 0
    ensures Reaches(g, s, g.colIndices[k])
  {
  }
}
