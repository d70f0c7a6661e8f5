/** Worklists: sequences without repetition, and sets from which an element is taken. */
module Queues {

  ghost predicate Distinct<T(!new)>(q: seq<T>) {
    forall i, j | 0 <= i < j < |q| :: q[i] != q[j]
  }

  lemma PopFront<T(!new)>(q: seq<T>)
    requires q != [] && Distinct(q)
    ensures Distinct(q[1..])
    ensures forall v :: v in q[1..] <==> v in q && v != q[0]
  {
    forall v
      ensures v in q[1..] <==> v in q && v != q[0]
    {
      if v in q && v != q[0] {
        var i :| 0 <= i < |q| && q[i] == v;
        assert q[1..][i - 1] == v;
      }
    }
  }

  lemma PushBack<T(!new)>(q: seq<T>, v: T)
    requires Distinct(q) && v !in q
    ensures Distinct(q + [v])
    ensures forall w :: w in q + [v] <==> w in q || w == v
  {
  }

  lemma DistinctConcat<T(!new)>(a: seq<T>, b: seq<T>)
    requires Distinct(a) && Distinct(b) && forall v | v in b :: v !in a
    ensures Distinct(a + b)
  {
    forall i, j | 0 <= i < j < |a + b|
      ensures (a + b)[i] != (a + b)[j]
    {
      if i < |a| <= j {
        assert b[j - |a|] in b && a[i] in a;
      }
    }
  }

  lemma Inhabited(s: set<int>)
    requires s != {}
    ensures exists v :: v in s
  {
    assert (forall v :: v !in s) ==> s == {};
  }

  lemma SameSet(s: set<int>, t: set<int>)
    requires forall v :: v in s <==> v in t
    ensures s == t
  {
    assert forall v | v in s :: v in t;
    assert forall v | v in t :: v in s;
  }

  ghost function Elements(q: seq<int>): (s: set<int>)
    ensures forall v :: v in s <==> v in q
  {
    set v | v in q
  }

  lemma {:induction false} DistinctSize(q: seq<int>)
    requires Distinct(q)
    ensures |Elements(q)| == |q|
  {
    if q != [] {
      var l := |q| - 1;
      DistinctSize(q[..l]);
      assert Elements(q) == Elements(q[..l]) + {q[l]};
      assert q[l] !in q[..l];
    }
  }

  lemma {:induction false} DistinctBelow(s: seq<nat>, n: nat)
    requires Distinct(s) && forall v | v in s :: v < n
    ensures |s| <= n
    decreases n
  {
    forall k | 0 <= k < |s|
      ensures s[k] < n
    {
      assert s[k] in s;
    }
    if n > 0 && n - 1 in s {
      var k :| 0 <= k < |s| && s[k] == n - 1;
      var rest := s[..k] + s[k + 1..];
      assert forall v | v in rest :: v in s;
      DistinctBelow(rest, n - 1);
    } else if n > 0 {
      DistinctBelow(s, n - 1);
    }
  }

  /** The numbers below `n`. */
  ghost function UpTo(n: nat): (s: set<nat>)
    ensures forall v: nat :: v in s <==> v < n
  {
    if n == 0 then {} else UpTo(n - 1) + {n - 1}
  }
}
