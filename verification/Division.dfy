/** Unsigned division by a variable, as the div instruction and C's / and % do it. */
module Division {
  lemma Sign(q: int, d: int)
    requires 1 <= d
    ensures q < 0 ==> q * d + d <= 0
    ensures q >= 0 ==> q * d >= q
  {
    if q < 0 { assert (q + 1) * d <= 0; }
  }

  /** The quotient and the remainder, by repeated subtraction. */
  function Div(n: nat, d: nat): (q: nat)
    requires 1 <= d
    ensures q <= n
  {
    if n < d then 0 else 1 + Div(n - d, d)
  }

  function Mod(n: nat, d: nat): (r: nat)
    requires 1 <= d
    ensures r < d
  {
    if n < d then n else Mod(n - d, d)
  }

  lemma {:induction false} Divide(n: nat, d: nat)
    requires 1 <= d
    ensures Div(n, d) * d + Mod(n, d) == n
  {
    if d <= n { Divide(n - d, d); }
  }

  lemma Scale(a: nat, b: nat, m: nat)
    requires 1 <= m
    ensures a < b ==> a * m + m <= b * m
  {
    if a < b { Sign(b - a - 1, m); }
  }

  /** A quotient and remainder are the only ones. */
  lemma Unique(n: nat, d: nat, q: nat, r: nat)
    requires 1 <= d && n == q * d + r && r < d
    ensures q == Div(n, d) && r == Mod(n, d)
  {
    Divide(n, d);
    Scale(q, Div(n, d), d);
    Scale(Div(n, d), q, d);
  }

  /** They are what the division operators compute. */
  lemma DivisionOperators(n: nat, d: nat)
    requires 1 <= d
    ensures Div(n, d) == n / d && Mod(n, d) == n % d
  {
    assert n / d * d + n % d == n;
    Sign(n / d, d);
    Unique(n, d, n / d, n % d);
  }
}
