/** Lists of fixed variables. */
module Fixings {

  /** A variable (counted from 1) and the value it is fixed to. */
  type Fixing = (nat, int)

  function Code(f: Fixing): int {
    if f.1 == 1 then f.0 else 0 - f.0
  }

  /** The literals that a list of fixed variables makes true, with the constant true. */
  ghost function Fixed(fixed: seq<Fixing>): set<int> {
    {0} + set f | f in fixed :: Code(f)
  }

  /** `x` gives every fixed variable its value. */
  ghost predicate Agrees(x: seq<bool>, fixed: seq<Fixing>) {
    forall f | f in fixed :: 1 <= f.0 <= |x| && x[f.0 - 1] == (f.1 == 1)
  }

  lemma FixedAppend(fixed: seq<Fixing>, f: Fixing)
    ensures Fixed(fixed + [f]) == Fixed(fixed) + {Code(f)}
  {
    assert forall g :: g in fixed + [f] <==> g in fixed || g == f;
  }

  lemma FixedConcat(a: seq<Fixing>, b: seq<Fixing>)
    ensures Fixed(a + b) == Fixed(a) + Fixed(b)
  {
    assert forall f :: f in a + b <==> f in a || f in b;
  }

  /** A literal that is made true is the fixing of its variable. */
  lemma FixedLiteral(fixed: seq<Fixing>, lit: int)
    requires lit in Fixed(fixed) && lit != 0 && forall f | f in fixed :: f.0 >= 1 && (f.1 == 0 || f.1 == 1)
    ensures (if lit > 0 then (lit, 1) else (-lit, 0)) in fixed
  {
    var f :| f in fixed && Code(f) == lit;
  }
}
