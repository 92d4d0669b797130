/** Division facts that the solver needs spelled out for variable divisors, and powers of two. */
module Arith {

  lemma DivUnique(x: nat, m: nat, q: int, r: int)
    requires m > 0 && x == q * m + r && 0 <= r < m
    ensures x / m == q && x % m == r
  {
    var q', r' := x / m, x % m;
    assert x == q' * m + r' && 0 <= r' < m;
    if q < q' {
      Gap(q, q', m);
      assert false;
    } else if q' < q {
      Gap(q', q, m);
      assert false;
    }
  }

  lemma Gap(i: int, j: int, u: nat)
    requires i < j
    ensures i * u + u <= j * u
  {
    assert (i + 1) * u <= j * u;
  }

  lemma MultipleMod(q: nat, m: nat)
    requires m > 0
    ensures (q * m) % m == 0 && (q * m) / m == q
  {
    DivUnique(q * m, m, q, 0);
  }

  function Pow2(k: nat): (r: nat)
    ensures r > 0
  {
    if k == 0 then 1 else 2 * Pow2(k - 1)
  }

  lemma {:induction false} Pow2Monotone(a: nat, b: nat)
    requires a <= b
    ensures Pow2(a) <= Pow2(b)
    decreases b
  {
    if a < b { Pow2Monotone(a, b - 1); }
  }

  lemma {:induction false} Pow2Add(a: nat, b: nat)
    ensures Pow2(a + b) == Pow2(a) * Pow2(b)
  {
    if a > 0 { Pow2Add(a - 1, b); }
  }
}
