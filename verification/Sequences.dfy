/** Sequences of array indices: the ghost order of a linked list. */
module Sequences {
  /** q with its k-th element taken out. */
  function Without(q: seq<nat>, k: nat): (r: seq<nat>)
    requires k < |q|
    ensures |r| == |q| - 1 && forall i | 0 <= i < |r| :: r[i] == if i < k then q[i] else q[i + 1]
  {
    q[..k] + q[k + 1..]
  }

  /** q' is q with b taken out. */
  ghost predicate TakenOut(q: seq<nat>, q': seq<nat>, b: nat) {
    exists k: nat :: k < |q| && q[k] == b && q' == Without(q, k)
  }

  lemma WithoutMembers(q: seq<nat>, k: nat)
    requires k < |q| && forall i, j | 0 <= i < j < |q| :: q[i] != q[j]
    ensures forall b :: b in Without(q, k) <==> b in q && b != q[k]
  {
    var r := Without(q, k);
    forall b | b in q && b != q[k] ensures b in r {
      var i :| 0 <= i < |q| && q[i] == b;
      assert r[if i < k then i else i - 1] == b;
    }
  }
}
