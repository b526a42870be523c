/** Counting how often something is somewhere. */
module Counting {
  function One(b: bool): int {
    if b then 1 else 0
  }

  /** How often a number is in a sequence. */
  function Occurs(q: seq<nat>, r: nat): int {
    if q == [] then 0 else One(q[0] == r) + Occurs(q[1..], r)
  }

  lemma {:induction false} OccursTail(q: seq<nat>, r: nat)
    requires q != []
    ensures Occurs(q, r) == One(q[0] == r) + Occurs(q[1..], r)
  {
  }

  lemma {:induction false} OccursSnoc(q: seq<nat>, x: nat, r: nat)
    ensures Occurs(q + [x], r) == Occurs(q, r) + One(x == r)
  {
    OccursAppend(q, [x], r);
    OccursTail([x], r);
  }

  lemma {:induction false} OccursAppend(p: seq<nat>, q: seq<nat>, r: nat)
    ensures Occurs(p + q, r) == Occurs(p, r) + Occurs(q, r)
  {
    if p == [] {
      assert p + q == q;
    } else {
      OccursAppend(p[1..], q, r);
      assert (p + q)[1..] == p[1..] + q;
    }
  }

  lemma {:induction false} OccursNat(q: seq<nat>, r: nat)
    ensures 0 <= Occurs(q, r)
    ensures r in q <==> 0 < Occurs(q, r)
  {
    if q != [] {
      OccursNat(q[1..], r);
      assert r in q <==> q[0] == r || r in q[1..];
    }
  }
}
