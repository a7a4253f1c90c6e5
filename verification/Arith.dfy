/** Powers, quotients and multiples used by more than one model. */
module Arith {

  const U32: nat := 0x1_0000_0000
  const U64: nat := 0x1_0000_0000_0000_0000

  function Pow2(n: nat): (r: nat)
    ensures r >= 1
  {
    if n == 0 then 1 else 2 * Pow2(n - 1)
  }

  function Pow256(w: nat): (r: nat)
    ensures r >= 1
  {
    if w == 0 then 1 else 256 * Pow256(w - 1)
  }

  lemma {:induction false} Pow2Monotone(a: nat, b: nat)
    requires a <= b
    ensures Pow2(a) <= Pow2(b)
    decreases b
  {
    if a < b {
      Pow2Monotone(a, b - 1);
    }
  }

  lemma {:induction false} Pow2Sum(a: nat, b: nat)
    ensures Pow2(a + b) == Pow2(a) * Pow2(b)
    decreases a
  {
    if a > 0 {
      Pow2Sum(a - 1, b);
      assert 2 * (Pow2(a - 1) * Pow2(b)) == (2 * Pow2(a - 1)) * Pow2(b);
    }
  }

  predicate IsPow2(n: nat)
  {
    n == 1 || (n > 1 && n % 2 == 0 && IsPow2(n / 2))
  }

  lemma Pow2Doubles(n: nat)
    requires IsPow2(n)
    ensures IsPow2(n * 2) && n * 2 / 2 == n
  {
  }

  lemma {:induction false} PowerIsPow2(k: nat)
    ensures IsPow2(Pow2(k))
  {
    if k > 0 {
      PowerIsPow2(k - 1);
    }
  }

  lemma {:induction false} Exponent(n: nat) returns (k: nat)
    requires IsPow2(n)
    ensures n == Pow2(k)
  {
    if n == 1 {
      k := 0;
    } else {
      k := Exponent(n / 2);
      k := k + 1;
    }
  }

  lemma Doubling(n: nat)
    ensures Pow2(n + 1) == 2 * Pow2(n) && Pow2(0) == 1
  {
  }

  lemma SmallPowers()
    ensures Pow2(1) == 2 && Pow2(6) == 64 && Pow2(7) == 128 && Pow2(8) == 256
  {
  }

  lemma Pow2Values()
    ensures Pow2(15) == 0x8000 && Pow2(24) == 0x100_0000 && Pow2(48) == 0x1_0000_0000_0000
    ensures Pow2(56) == 0x100_0000_0000_0000
    ensures Pow2(6) == 64 && Pow2(7) == 128 && Pow2(8) == 256
    ensures Pow2(62) == U64 / 4 && Pow2(63) == U64 / 2 && Pow2(64) == U64
  {
    SmallPowers();
    hide Pow2;
    Pow2Sum(7, 8);
    Pow2Sum(8, 8);
    Pow2Sum(16, 16);
    Pow2Sum(32, 16);
    Pow2Sum(8, 16);
    Pow2Sum(48, 8);
    Pow2Sum(56, 6);
    Pow2Sum(1, 62);
    Pow2Sum(1, 63);
  }

  lemma Widths()
    ensures Pow256(4) == U32 && Pow256(8) == U64
  {
  }

  lemma MulMonotone(p: nat, a: int, b: int)
    requires a <= b
    ensures p * a <= p * b && a * p <= b * p
  {
  }

  /** A quotient is at least k exactly when k divisors fit. */
  lemma DivAtLeast(v: nat, p: nat, k: nat)
    requires p > 0
    ensures v / p >= k <==> v >= p * k
  {
    var q := v / p;
    assert v == p * q + v % p;
    if q < k {
      MulMonotone(p, q + 1, k);
      assert p * (q + 1) == p * q + p;
    } else {
      MulMonotone(p, k, q);
    }
  }

  lemma DivMonotone(a: nat, b: nat, p: nat)
    requires a <= b && p > 0
    ensures a / p <= b / p && a / p * p <= b / p * p
  {
    DivAtLeast(a, p, a / p);
    DivAtLeast(b, p, a / p);
    MulMonotone(p, a / p, b / p);
  }

  lemma Remainder(v: nat, p: nat)
    requires p > 0
    ensures v / p * p <= v < v / p * p + p
  {
  }

  /** The only multiple of n strictly between -n and n is zero. */
  lemma SmallMultiple(n: int, f: int, e: int)
    requires e == n * f && -n < e < n
    ensures e == 0
  {
  }

  lemma SameResidue(n: nat, c: int, r: nat)
    requires n > 0 && n * c + r >= 0
    ensures (n * c + r) % n == r % n
  {
    var v := n * c + r;
    var q, q' := v / n, r / n;
    assert v == n * q + v % n && r == n * q' + r % n;
    assert n * (q - c - q') == r % n - v % n by {
      assert n * (q - c - q') == n * q - n * c - n * q';
    }
    SmallMultiple(n, q - c - q', r % n - v % n);
  }

  lemma ResidueIs(n: nat, v: nat, c: int, y: nat)
    requires y < n && v == n * c + y
    ensures v % n == y
  {
    SameResidue(n, c, y);
  }

  lemma QuotientUnique(a: nat, d: nat, q: nat, r: nat)
    requires r < d && a == d * q + r
    ensures a / d == q
  {
    assert a == d * (a / d) + a % d;
    SmallMultiple(d, q - a / d, a % d - r);
    assert d * (q - a / d) == d * q - d * (a / d);
    OneFactorZero(d, q - a / d);
  }

  lemma OneFactorZero(d: int, f: int)
    requires d > 0 && d * f == 0
    ensures f == 0
  {
  }
}
