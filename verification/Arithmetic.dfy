/** Division and multiplication by a variable, one fact at a time. */
module Arithmetic {

  /** Unsigned `/` and `%`. */
  function Div(x: nat, m: nat): (q: nat)
    requires m > 0
  {
    x / m
  }

  function Mod(x: nat, m: nat): (r: nat)
    requires m > 0
    ensures r < m
  {
    x % m
  }

  lemma DivMod(x: nat, m: nat)
    requires m > 0
    ensures x == m * Div(x, m) + Mod(x, m)
  {
  }

  lemma SameSplit(m: nat, q1: nat, x1: nat, q2: nat, x2: nat)
    requires m > 0 && x1 < m && x2 < m && m * q1 + x1 == m * q2 + x2
    ensures q1 == q2 && x1 == x2
  {
    var d := q1 - q2;
    assert m * d == x2 - x1;
    MulAtLeast(m, d);
  }

  lemma MulAtLeast(m: int, d: int)
    requires m >= 0
    ensures d > 0 ==> m * d >= m
    ensures d < 0 ==> m * d <= -m
  {
  }

  lemma DivModSplit(x: nat, m: nat, q: nat, r: nat)
    requires m > 0 && x == m * q + r && r < m
    ensures Div(x, m) == q && Mod(x, m) == r
  {
    DivMod(x, m);
    hide Div, Mod;
    SameSplit(m, Div(x, m), Mod(x, m), q, r);
  }

  lemma Distribute(a: nat, b: nat, m: nat)
    ensures m * (a + b) == m * a + m * b
  {
  }

  lemma Nonnegative(a: nat, m: nat)
    ensures m * a >= 0
  {
  }
}
