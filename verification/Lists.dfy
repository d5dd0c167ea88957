/** Lists without repetition. */
module Lists {

  ghost predicate Equal(q: seq<nat>, i: int, j: int) {
    0 <= i < j < |q| && q[i] == q[j]
  }

  ghost predicate Distinct(q: seq<nat>) {
    forall i, j :: !Equal(q, i, j)
  }

  lemma DistinctAt(q: seq<nat>, i: nat, j: nat)
    requires Distinct(q) && i < |q| && j < |q| && i != j
    ensures q[i] != q[j]
  {
    assert !Equal(q, i, j) && !Equal(q, j, i);
  }
}
