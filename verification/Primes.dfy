/** Arithmetic modulo a prime, and counting. */
module Primes {
  import opened Arith
  import opened Collections

  ghost predicate Divides(d: nat, n: nat)
    requires d > 0
  {
    n % d == 0
  }

  ghost predicate IsPrime(p: nat) {
    p >= 2 && forall d {:trigger Divides(d, p)} :: 1 < d < p ==> !Divides(d, p)
  }

  // ---- Counting ----

  ghost function Range(n: nat): (s: set<nat>)
    ensures forall x :: x in s <==> 0 <= x < n
    ensures |s| == n
  {
    if n == 0 then {} else Range(n - 1) + {n - 1}
  }

  ghost predicate Below(s: seq<nat>, n: nat) {
    forall i {:trigger s[i]} :: 0 <= i < |s| ==> s[i] < n
  }

  lemma {:induction false} DistinctSize(s: seq<nat>)
    requires Distinct(s)
    ensures |Elements(s)| == |s|
  {
    if s != [] {
      var n := |s| - 1;
      DistinctSize(s[..n]);
      assert s == s[..n] + [s[n]];
      assert Elements(s) == Elements(s[..n]) + {s[n]};
    } else {
      assert Elements(s) == {};
    }
  }

  /** Distinct numbers below `n` are at most `n`, and if they are `n` of them they are all the numbers below `n`. */
  lemma {:induction false} Pigeonhole(s: seq<nat>, n: nat)
    requires Distinct(s) && Below(s, n)
    ensures |s| <= n && (|s| == n ==> forall c :: 0 <= c < n ==> c in s)
  {
    DistinctSize(s);
    SubsetSize(Elements(s), Range(n));
    if |s| == n {
      forall c | 0 <= c < n ensures c in s {
        assert c in Range(n);
        assert c in Elements(s);
      }
    }
  }

  // ---- Residues ----

  lemma {:induction false} AddMod(x: nat, y: nat, p: nat)
    requires p > 0 && x % p == 0
    ensures (x + y) % p == y % p
  {
    var q, r := x / p + y / p, y % p;
    assert x + y == q * p + r;
    DivUnique(x + y, p, q, r);
  }

  lemma {:induction false} ProductMod(a: nat, b: nat, p: nat)
    requires p > 0
    ensures (a * b) % p == ((a % p) * b) % p
  {
    var q, r := a / p, a % p;
    assert a * b == (q * b) * p + r * b;
    MultipleMod(q * b, p);
    AddMod((q * b) * p, r * b, p);
  }

  /** `p` divides `k * a`. */
  ghost predicate Hits(p: nat, a: nat, k: nat)
    requires p > 0
  {
    (k * a) % p == 0
  }

  lemma {:induction false} HitsMod(p: nat, a: nat, k: nat, q: nat, r: nat)
    requires p > 0 && Hits(p, a, k) && Hits(p, a, q * k + r)
    ensures Hits(p, a, r)
  {
    assert (q * k + r) * a == (k * a) * q + r * a;
    ProductMod(k * a, q, p);
    AddMod((k * a) * q, r * a, p);
  }

  /** The least positive number that hits, searched from `k` on. */
  lemma {:induction false} LeastHit(p: nat, a: nat, k: nat) returns (r: nat)
    requires p > 0 && 0 < k <= p && forall i {:trigger Hits(p, a, i)} :: 0 < i < k ==> !Hits(p, a, i)
    ensures 0 < r <= p && Hits(p, a, r) && forall i {:trigger Hits(p, a, i)} :: 0 < i < r ==> !Hits(p, a, i)
    decreases p - k
  {
    if Hits(p, a, k) {
      r := k;
    } else {
      HitsSelf(p, a);
      r := LeastHit(p, a, k + 1);
    }
  }

  lemma {:induction false} HitsSelf(p: nat, a: nat)
    requires p > 0
    ensures Hits(p, a, p)
  {
    MultipleMod(a, p);
    assert p * a == a * p;
  }

  /** A prime that divides a product with a smaller positive number divides the other factor. */
  lemma {:induction false} Euclid(p: nat, a: nat, b: nat)
    requires IsPrime(p) && 0 < a < p && Hits(p, a, b)
    ensures b % p == 0
  {
    var k := LeastHit(p, a, 1);
    HitsSelf(p, a);
    LeastDivides(p, a, k, p);
    assert Divides(k, p);
    assert !Hits(p, a, 1);
    LeastDivides(p, a, k, b);
  }

  lemma {:induction false} LeastDivides(p: nat, a: nat, k: nat, b: nat)
    requires p > 0 && k > 0 && Hits(p, a, k) && Hits(p, a, b)
    requires forall i {:trigger Hits(p, a, i)} :: 0 < i < k ==> !Hits(p, a, i)
    ensures b % k == 0
  {
    var q, r := b / k, b % k;
    assert b == q * k + r;
    HitsMod(p, a, k, q, r);
  }

  // ---- The primality of 65537 ----

  lemma {:induction false} NoSmallFactor(d: nat, e: nat)
    requires 1 < d <= 256
    ensures d * e != 65537
  {
  }

  /** The Maglev table size is prime: of two factors one is at most 256. */
  lemma {:induction false} TableSizePrime()
    ensures IsPrime(65537)
  {
    forall d | 1 < d < 65537 ensures !Divides(d, 65537) {
      var e := 65537 / d;
      if 65537 % d == 0 {
        assert d * e == 65537;
        if d <= 256 {
          NoSmallFactor(d, e);
        } else {
          OtherFactor(d, e, 65537);
          NoSmallFactor(e, d);
        }
      }
    }
  }

  lemma {:induction false} OtherFactor(d: nat, e: nat, n: nat)
    requires 256 < d < n <= 65537 && d * e == n
    ensures 1 < e <= 256 && e * d == n
  {
  }
}
