/** The machine's bitwise operators on unsigned words, a word being the number it
    stands for: each is defined bit by bit, and the lemmas say which arithmetic the
    code's masks, shifts and packings amount to. */
module Bits {
  import opened Arith

  // ---- exclusive or ----

  function Xor(a: nat, b: nat): nat
    decreases a + b
  {
    if a == 0 && b == 0 then 0 else (a + b) % 2 + 2 * Xor(a / 2, b / 2)
  }

  lemma {:induction false} XorCancel(a: nat, b: nat, c: nat)
    requires Xor(a, c) == Xor(b, c)
    ensures a == b
    decreases a + b + c
  {
    hide Xor;
    if a + b + c > 0 {
      XorUnfold(a, c);
      XorUnfold(b, c);
      XorCancel(a / 2, b / 2, c / 2);
      SameParity(a, b, c);
    }
  }

  lemma SameParity(a: nat, b: nat, c: nat)
    requires (a + c) % 2 == (b + c) % 2
    ensures a % 2 == b % 2
  {
  }

  lemma XorUnfold(a: nat, b: nat)
    ensures Xor(a, b) == (a + b) % 2 + 2 * Xor(a / 2, b / 2)
  {
  }

  // ---- shifts ----

  /** Shifting right, one bit at a time. */
  function Shr(a: nat, k: nat): (r: nat)
    ensures r <= a && (a > 0 && k > 0 ==> r < a)
  {
    if k == 0 then a else Shr(a / 2, k - 1)
  }

  function Shl(a: nat, k: nat): nat
  {
    if k == 0 then a else 2 * Shl(a, k - 1)
  }

  lemma {:induction false} ShlIsMul(a: nat, k: nat)
    ensures Shl(a, k) == a * Pow2(k)
  {
    if k > 0 {
      ShlIsMul(a, k - 1);
      assert a * (2 * Pow2(k - 1)) == 2 * (a * Pow2(k - 1));
    }
  }

  /** Shifting is dividing by a power of two. */
  lemma {:induction false} ShrIsDiv(a: nat, k: nat)
    ensures Shr(a, k) == a / Pow2(k)
    decreases k
  {
    if k > 0 {
      ShrIsDiv(a / 2, k - 1);
      DivDiv(a, Pow2(k - 1));
    }
  }

  lemma DivDiv(a: nat, p: nat)
    requires p > 0
    ensures a / 2 / p == a / (2 * p)
  {
    var q, r := a / 2 / p, a / 2 % p;
    assert a / 2 == p * q + r;
    assert a == (2 * p) * q + (2 * r + a % 2);
    QuotientUnique(a, 2 * p, q, 2 * r + a % 2);
  }

  lemma {:induction false} XorShr(a: nat, b: nat, k: nat)
    ensures Shr(Xor(a, b), k) == Xor(Shr(a, k), Shr(b, k))
    decreases k
  {
    if k > 0 {
      XorUnfold(a, b);
      XorShr(a / 2, b / 2, k - 1);
    }
  }

  lemma {:induction false} XorBound(a: nat, b: nat, k: nat)
    requires a < Pow2(k) && b < Pow2(k)
    ensures Xor(a, b) < Pow2(k)
    decreases k
  {
    if k > 0 {
      XorUnfold(a, b);
      XorBound(a / 2, b / 2, k - 1);
    }
  }

  // ---- masks and packing ----

  function And(a: nat, b: nat): nat
    decreases a + b
  {
    if a == 0 && b == 0 then 0 else (if a % 2 == 1 && b % 2 == 1 then 1 else 0) + 2 * And(a / 2, b / 2)
  }

  function Or(a: nat, b: nat): nat
    decreases a + b
  {
    if a == 0 && b == 0 then 0 else (if a % 2 == 1 || b % 2 == 1 then 1 else 0) + 2 * Or(a / 2, b / 2)
  }

  /** Masking with a power of two less one is the remainder. */
  lemma {:induction false} MaskIsMod(h: nat, len: nat)
    requires IsPow2(len)
    ensures And(h, len - 1) == h % len
    decreases len
  {
    if len == 1 {
      AndZero(h);
    } else {
      var m := len / 2;
      MaskIsMod(h / 2, m);
      assert (len - 1) / 2 == m - 1 && (len - 1) % 2 == 1;
      ModTwice(h, m);
    }
  }

  lemma {:induction false} AndZero(a: nat)
    ensures And(a, 0) == 0
  {
    if a > 0 {
      AndZero(a / 2);
    }
  }

  lemma {:induction false} OrZero(a: nat)
    ensures Or(a, 0) == a
  {
    if a > 0 {
      OrZero(a / 2);
    }
  }

  lemma ModTwice(h: nat, m: nat)
    requires m > 0
    ensures h % (2 * m) == h % 2 + 2 * (h / 2 % m)
  {
    DivDiv(h, m);
    var q := h / 2 / m;
    assert h / 2 == m * q + h / 2 % m;
    assert h == 2 * m * (h / (2 * m)) + h % (2 * m);
  }

  /** A field or-ed in below a shifted one: the low bits are its own, and if it fits
      below the shift nothing of either is lost. */
  lemma {:induction false} OrBelow(a: nat, b: nat, k: nat)
    ensures Or(Shl(a, k), b) % Pow2(k) == b % Pow2(k)
    ensures b < Pow2(k) ==> Or(Shl(a, k), b) == Shl(a, k) + b
    decreases k
  {
    if k == 0 {
      OrZero(a);
    } else {
      OrBelow(a, b / 2, k - 1);
      ModTwice(b, Pow2(k - 1));
      ModTwice(Or(Shl(a, k), b), Pow2(k - 1));
    }
  }

  /** Masking a field in place is masking it shifted down. */
  lemma {:induction false} AndShifted(e: nat, mask: nat, k: nat)
    ensures And(e, Shl(mask, k)) == Shl(And(Shr(e, k), mask), k)
    decreases k
  {
    if k > 0 {
      AndShifted(e / 2, mask, k - 1);
      assert Shl(mask, k) / 2 == Shl(mask, k - 1) && Shl(mask, k) % 2 == 0;
    }
  }
}
