/** Facts about products and quotients that the solver does not find on its own. */
module Arithmetic {

  lemma Cancel(n: nat, a: int, b: int)
    requires n * a > n * b
    ensures a > b
  {
    assert n * (a - b) > 0;
  }

  lemma Grows(n: nat, a: int, b: int)
    requires a <= b
    ensures n * a <= n * b
  {
    assert n * (b - a) >= 0;
    assert n * b == n * a + n * (b - a);
  }

  lemma Distributes(a: nat, b: nat, g: nat)
    ensures (a + b) * g == a * g + b * g
  {
  }

  /** So many whole parts fit. */
  lemma Divides(c: nat, g: nat, limit: nat)
    requires 0 < g
    ensures c * g <= limit <==> c <= limit / g
  {
    var q := limit / g;
    assert limit == q * g + limit % g;
    if c <= q { assert (q - c) * g >= 0; } else { assert (c - q - 1) * g >= 0; }
  }

  lemma TimesMono(a: nat, b: nat, g: nat)
    requires a <= b
    ensures a * g <= b * g
  {
    assert b * g == a * g + (b - a) * g;
  }

  lemma Quotient(i: nat, g: nat)
    requires 0 < g
    ensures (i * g) / g == i
  {
    Divides(i, g, i * g);
    Divides(i + 1, g, i * g);
    Distributes(i, 1, g);
  }
}
