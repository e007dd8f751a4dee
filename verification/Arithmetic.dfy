// Division facts about variables, kept away from the contexts that use them.
module Arithmetic {

  lemma Multiples(d: int, m: nat)
    ensures (d > 0 ==> d * m >= m) && (d < 0 ==> d * m + m <= 0) && (d < 2 ==> d * m <= m)
  {
  }

  lemma DivisionIs(x: int, m: nat, q: int, r: int)
    requires m > 0 && x == q * m + r && 0 <= r < m
    ensures x / m == q && x % m == r
  {
    var d := x / m - q;
    assert d * m == r - x % m;
    Multiples(d, m);
  }

  // Counting on in a cycle.
  lemma NextCount(x: nat, m: nat)
    requires m > 0
    ensures (x + 1) % m == if x % m == m - 1 then 0 else x % m + 1
  {
    var q, c := x / m, x % m;
    if c == m - 1 {
      assert (q + 1) * m == q * m + m;
      DivisionIs(x + 1, m, q + 1, 0);
    } else {
      DivisionIs(x + 1, m, q, c + 1);
    }
  }
}
