/** Sequences: one element taken out, no element twice, and grouping. */
module Sequences {

  function Without(q: seq<nat>, x: nat): (r: seq<nat>)
    ensures forall y :: y in r <==> y in q && y != x
    ensures x !in q ==> r == q
  {
    if q == [] then [] else (if q[0] == x then [] else [q[0]]) + Without(q[1..], x)
  }

  predicate Distinct(q: seq<nat>) {
    q == [] || (q[0] !in q[1..] && Distinct(q[1..]))
  }

  /** Concatenation is associative. */
  lemma Regroup<T>(a: seq<T>, b: seq<T>, c: seq<T>)
    ensures a + b + c == a + (b + c)
  {
  }
}
