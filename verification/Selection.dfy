/** Which places of a sequence are selected. */
module Selection {
  /** The wanted numbers from `from` up to `end`. */
  ghost function Select(wanted: nat -> bool, from: nat, end: nat): (at: seq<nat>)
    ensures forall k :: 0 <= k < |at| ==> from <= at[k] < end && wanted(at[k])
    decreases end - from
  {
    if from >= end then []
    else if wanted(from) then [from] + Select(wanted, from + 1, end)
    else Select(wanted, from + 1, end)
  }

  /** They are exactly the wanted ones, each once and in order. */
  lemma {:induction false} Selected(wanted: nat -> bool, from: nat, end: nat)
    ensures var at := Select(wanted, from, end);
            && (forall k, m :: 0 <= k < m < |at| ==> at[k] < at[m])
            && (forall i: nat :: i in at <==> from <= i < end && wanted(i))
    decreases end - from
  {
    if from < end {
      Selected(wanted, from + 1, end);
    }
  }

  lemma {:induction false} SelectLast(wanted: nat -> bool, from: nat, k: nat)
    requires from <= k
    ensures Select(wanted, from, k + 1) == Select(wanted, from, k) + if wanted(k) then [k] else []
    decreases k - from
  {
    if from < k {
      SelectLast(wanted, from + 1, k);
    } else {
      assert Select(wanted, k + 1, k + 1) == [] && Select(wanted, k, k) == [];
    }
  }
}
