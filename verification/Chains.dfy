/** Chains of slots in a table: where a link leads, and what is left when one slot is taken out. */
module Chains {

  /** The end mark of a chain. */
  const NONE: int := -1

  /** The slot at position `k` of a chain, or the end mark past its end. */
  function Nth(c: seq<nat>, k: nat): int {
    if k < |c| then c[k] else NONE
  }

  ghost predicate Distinct(c: seq<nat>) {
    forall k, l :: 0 <= k < l < |c| ==> c[k] != c[l]
  }

  lemma DistinctAt(c: seq<nat>, k: nat, l: nat)
    requires Distinct(c) && k < |c| && l < |c| && c[k] == c[l]
    ensures k == l
  {
  }

  function Without(c: seq<nat>, k: nat): seq<nat>
    requires k < |c|
  {
    c[..k] + c[k + 1..]
  }

  lemma WithoutMembers(c: seq<nat>, k: nat, i: nat)
    requires Distinct(c) && k < |c|
    ensures i in Without(c, k) <==> i in c && i != c[k]
  {
    var d := Without(c, k);
    if i in c && i != c[k] {
      var j :| 0 <= j < |c| && c[j] == i;
      assert d[if j < k then j else j - 1] == i;
    }
    if i in d {
      var j :| 0 <= j < |d| && d[j] == i;
      assert i == c[if j < k then j else j + 1];
    }
  }
}
