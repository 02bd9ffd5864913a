/** Division by a variable, in the few forms the layouts below need. */
module Arith {

  lemma AtLeast(m: nat, n: nat)
    requires 0 < m
    ensures m * n >= n
  {
    assert m * n == (m - 1) * n + n;
  }

  /** A number with quotient `q` and remainder `r` is known by them. */
  lemma DivMod(a: nat, n: nat, q: nat, r: nat)
    requires 0 < n && r < n && a == q * n + r
    ensures a / n == q && a % n == r
  {
    var d := a / n;
    assert d * n - q * n == r - a % n;
    if d > q {
      AtLeast(d - q, n);
    } else if d < q {
      AtLeast(q - d, n);
    }
  }

  lemma SameDivMod(a: nat, b: nat, n: nat)
    requires 0 < n && a / n == b / n && a % n == b % n
    ensures a == b
  {
  }

  lemma DivMono(a: nat, b: nat, n: nat)
    requires 0 < n && a <= b
    ensures a / n <= b / n
  {
    var p, q := a / n, b / n;
    if p > q {
      AtLeast(p - q, n);
    }
  }

  /** Stepping `j` places on from `hand` around a circle of `n`. */
  function Round(hand: nat, j: nat, n: nat): (i: nat)
    requires 0 < n
    ensures i < n
  {
    (hand + j) % n
  }

  /** Every place is met within one turn. */
  lemma RoundTo(hand: nat, j: nat, n: nat, i: nat)
    requires 0 < n && i < n && j < n
    requires j == if i >= hand % n then i - hand % n else i - hand % n + n
    ensures (hand + j) % n == i
  {
    var q := hand / n;
    var r := hand % n;
    assert hand == q * n + r;
    if i >= r {
      DivMod(hand + j, n, q, i);
    } else {
      assert hand + j == (q + 1) * n + i;
      DivMod(hand + j, n, q + 1, i);
    }
  }

  /** Numbers inside an interval are at most as many as its length. */
  lemma {:induction false} IntervalCard(s: set<nat>, lo: nat, n: nat)
    requires forall x :: x in s ==> lo <= x < lo + n
    ensures |s| <= n
  {
    if n == 0 {
      assert s == {};
    } else {
      var x := lo + n - 1;
      IntervalCard(s - {x}, lo, n - 1);
    }
  }
}
