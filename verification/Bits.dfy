/** The machine-integer operations the frame allocator uses, on unbounded naturals. */
module Bits {
  import opened Arith

  /** `usize::next_power_of_two`. */
  function NextPow2(n: nat): nat {
    if n <= 1 then 1 else 2 * NextPow2((n + 1) / 2)
  }

  /** `log2`, rounded down. */
  function Log2(n: nat): nat {
    if n <= 1 then 0 else 1 + Log2(n / 2)
  }

  /** Bitwise exclusive or. */
  function Xor(a: nat, b: nat): nat
    decreases a + b
  {
    if a == 0 && b == 0 then 0 else 2 * Xor(a / 2, b / 2) + (a + b) % 2
  }

  /** `NextPow2(n)` is the least power of two that is at least `n`, and `Log2` names it. */
  lemma {:induction false} NextPow2IsLeast(n: nat)
    ensures NextPow2(n) >= n
    ensures Pow2(Log2(NextPow2(n))) == NextPow2(n)
    ensures forall k: nat :: Pow2(k) >= n ==> Pow2(k) >= NextPow2(n)
  {
    if n > 1 {
      var h := (n + 1) / 2;
      NextPow2IsLeast(h);
      forall k: nat | Pow2(k) >= n ensures Pow2(k) >= NextPow2(n) {
        assert k > 0;
        assert Pow2(k - 1) >= h;
      }
    }
  }

  lemma {:induction false} Log2Pow2(k: nat)
    ensures Log2(Pow2(k)) == k
  {
    if k > 0 { Log2Pow2(k - 1); }
  }

  lemma {:induction false} NextPow2Pow2(k: nat)
    ensures NextPow2(Pow2(k)) == Pow2(k)
  {
    if k > 0 { NextPow2Pow2(k - 1); }
  }

  lemma {:induction false} XorZero(a: nat)
    ensures Xor(a, 0) == a
  {
    if a > 0 { XorZero(a / 2); }
  }

  lemma {:induction false} XorDouble(a: nat, b: nat)
    ensures Xor(2 * a, 2 * b) == 2 * Xor(a, b)
  {
    assert (2 * a) / 2 == a && (2 * b) / 2 == b && (2 * a + 2 * b) % 2 == 0;
  }

  lemma XorOne(i: nat, j: nat)
    requires j == if i % 2 == 0 then i + 1 else i - 1
    ensures Xor(i, 1) == j
  {
    XorZero(i / 2);
    assert Xor(i, 1) == 2 * Xor(i / 2, 0) + (i + 1) % 2;
  }

  /** Flipping bit `k` of a multiple of 2^k moves to the neighbouring multiple. */
  lemma {:induction false} XorFlipsIndex(i: nat, j: nat, k: nat)
    requires Xor(i, 1) == j
    ensures Xor(i * Pow2(k), Pow2(k)) == j * Pow2(k)
    decreases k
  {
    if k > 0 {
      XorFlipsIndex(i, j, k - 1);
      XorScaled(i, j, Pow2(k - 1));
    } else {
      assert i * 1 == i && j * 1 == j;
    }
  }

  lemma XorScaled(i: nat, j: nat, h: nat)
    requires Xor(i * h, h) == j * h
    ensures Xor(i * (2 * h), 2 * h) == j * (2 * h)
  {
    XorDouble(i * h, h);
    Double(i, h);
    Double(j, h);
  }

  lemma Double(i: nat, h: nat)
    ensures i * (2 * h) == 2 * (i * h)
  {
  }
}
