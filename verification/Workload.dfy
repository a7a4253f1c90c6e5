/** The workload's pseudo-random generator, on 64-bit words: a word is a number
    below 2^64, and sums and products wrap. */
module SplitMix {
  import opened Arith
  import opened Bits

  const M: nat := U64

  const STEP: nat := 0x9E3779B97F4A7C15
  const MUL1: nat := 0xBF58476D1CE4E5B9
  const MUL2: nat := 0x94D049BB133111EB

  // ---- xor-shifts ----

  /** z ^ (z >> k). */
  function Fold(z: nat, k: nat): nat
  {
    Xor(z, Shr(z, k))
  }

  /** Folding loses nothing: the top bits are the word's own, and each lower group is
      recovered from the group above it. */
  lemma {:induction false} FoldInjective(x: nat, y: nat, k: nat)
    requires k > 0 && Fold(x, k) == Fold(y, k)
    ensures x == y
    decreases x + y
  {
    XorShr(x, Shr(x, k), k);
    XorShr(y, Shr(y, k), k);
    if x + y > 0 {
      FoldInjective(Shr(x, k), Shr(y, k), k);
    }
    XorCancel(x, y, Shr(x, k));
  }

  lemma FoldBound(z: nat, k: nat)
    requires z < M
    ensures Fold(z, k) < M
  {
    Pow2Values();
    XorBound(z, Shr(z, k), 64);
  }

  // ---- wrapping products by odd constants ----

  /** A 64-bit product. */
  function Times(x: nat, c: nat): (r: nat)
    ensures r < M
  {
    x * c % M
  }

  /** A wrapping product by a constant with an inverse modulo 2^64 loses nothing. */
  lemma OddInjective(x: nat, y: nat, c: nat, d: nat, k: nat)
    requires x < M && y < M && c * d == 1 + k * M
    requires Times(x, c) == Times(y, c)
    ensures x == y
  {
    var t := x * c / M - y * c / M;
    var e := x - y;
    assert e * c == M * t by {
      assert x * c == M * (x * c / M) + x * c % M && y * c == M * (y * c / M) + y * c % M;
    }
    assert e * (c * d) == M * t * d by {
      assert e * c * d == e * (c * d);
    }
    assert e * (1 + k * M) == e + M * (e * k);
    assert M * t * d == M * (t * d);
    SmallMultiple(M, t * d - e * k, e);
  }

  lemma Mul1Injective(x: nat, y: nat)
    requires x < M && y < M && Times(x, MUL1) == Times(y, MUL1)
    ensures x == y
  {
    hide Times;
    OddInjective(x, y, MUL1, 0x96DE1B173F119089, 0x70C3BCA78F27F46C);
  }

  lemma Mul2Injective(x: nat, y: nat)
    requires x < M && y < M && Times(x, MUL2) == Times(y, MUL2)
    ensures x == y
  {
    hide Times;
    OddInjective(x, y, MUL2, 0x319642B2D24D8EC3, 0x1CD336EDA85F1453);
  }

  lemma StepInjective(x: nat, y: nat)
    requires x < M && y < M && Times(x, STEP) == Times(y, STEP)
    ensures x == y
  {
    hide Times;
    OddInjective(x, y, STEP, 0xF1DE83E19937733D, 0x957BBF35006ED677);
  }

  // ---- draws ----

  /** One draw's mixing of the state. */
  function Mix(s: nat): nat
  {
    var a := Times(Fold(s, 30), MUL1);
    var b := Times(Fold(a, 27), MUL2);
    Fold(b, 31)
  }

  lemma MixInjective(x: nat, y: nat)
    requires x < M && y < M && Mix(x) == Mix(y)
    ensures x == y
  {
    hide Fold, Times;
    var a, a' := Times(Fold(x, 30), MUL1), Times(Fold(y, 30), MUL1);
    FoldInjective(Times(Fold(a, 27), MUL2), Times(Fold(a', 27), MUL2), 31);
    FoldBound(a, 27);
    FoldBound(a', 27);
    Mul2Injective(Fold(a, 27), Fold(a', 27));
    FoldInjective(a, a', 27);
    FoldBound(x, 30);
    FoldBound(y, 30);
    Mul1Injective(Fold(x, 30), Fold(y, 30));
    FoldInjective(x, y, 30);
  }

  function StateAfter(seed: nat, n: nat): (s: nat)
    ensures s < M
  {
    (seed + n * STEP) % M
  }

  /** The i-th draw from a seed. */
  function Draw(seed: nat, i: nat): nat
  {
    Mix(StateAfter(seed, i + 1))
  }

  /** Any 2^64 consecutive draws from any seed are pairwise distinct: the odd
      increment visits every state before repeating one, and mixing loses nothing. */
  lemma DrawsDistinct(seed: nat, i: nat, j: nat)
    requires i <= j < i + M && Draw(seed, i) == Draw(seed, j)
    ensures i == j
  {
    MixInjective(StateAfter(seed, i + 1), StateAfter(seed, j + 1));
    StatesDistinct(seed, i + 1, j + 1);
  }

  lemma StatesDistinct(seed: nat, i: nat, j: nat)
    requires i <= j < i + M && StateAfter(seed, i) == StateAfter(seed, j)
    ensures i == j
  {
    assert seed + j * STEP == seed + i * STEP + (j - i) * STEP;
    ModDiff(seed + i * STEP, (j - i) * STEP);
    assert Times(0, STEP) == 0 == Times(j - i, STEP);
    StepInjective(j - i, 0);
  }

  lemma ModDiff(a: nat, b: nat)
    requires a % M == (a + b) % M
    ensures b % M == 0
  {
  }

  lemma ModAdd(a: nat, b: nat)
    ensures (a % M + b) % M == (a + b) % M
  {
  }

  class SplitMix64 {
    var s: nat
    ghost const seed: nat
    ghost var drawn: nat

    ghost predicate Valid()
      reads this
    {
      s == StateAfter(seed, drawn)
    }

    constructor (seed: nat)
      requires seed < M
      ensures Valid() && this.seed == seed && drawn == 0
    {
      s := seed;
      this.seed := seed;
      drawn := 0;
    }

    method Next() returns (z: nat)
      requires Valid()
      modifies this
      ensures Valid() && drawn == old(drawn) + 1 && z == Draw(seed, old(drawn))
    {
      hide Fold, Times;
      ModAdd(seed + drawn * STEP, STEP);
      s := (s + STEP) % M;
      z := s;
      z := Times(Fold(z, 30), MUL1);
      z := Times(Fold(z, 27), MUL2);
      z := Fold(z, 31);
      drawn := drawn + 1;
    }
  }
}

/** Keys and key selection. */
module Workload {
  import opened Arith
  import opened Records

  // ---- EncodeKey ----

  /** The low w bytes of n, most significant first. */
  function BigEndian(n: nat, w: nat): (b: Bytes)
    ensures |b| == w
  {
    if w == 0 then [] else BigEndian(n / 256, w - 1) + [n % 256]
  }

  const PAD: Bytes := [48, 48, 48, 48, 48, 48, 48, 48]

  function EncodeKey(idx: nat): (k: Bytes)
    ensures |k| == 16
  {
    BigEndian(idx, 8) + PAD
  }

  /** bytes.Compare(a, b) < 0. */
  predicate LexLess(a: Bytes, b: Bytes)
  {
    b != [] && (a == [] || a[0] < b[0] || (a[0] == b[0] && LexLess(a[1..], b[1..])))
  }

  lemma {:induction false} LexConcat(a: Bytes, b: Bytes, x: Bytes, y: Bytes)
    requires |a| == |b|
    ensures LexLess(a + x, b + y) <==> LexLess(a, b) || (a == b && LexLess(x, y))
  {
    if a == [] {
      assert a + x == x && b + y == y;
    } else {
      LexConcat(a[1..], b[1..], x, y);
      assert (a + x)[1..] == a[1..] + x && (b + y)[1..] == b[1..] + y;
      assert a == b <==> a[0] == b[0] && a[1..] == b[1..];
    }
  }

  lemma {:induction false} LexIrreflexive(a: Bytes)
    ensures !LexLess(a, a)
  {
    if a != [] {
      LexIrreflexive(a[1..]);
    }
  }

  lemma {:induction false} BigEndianOrder(m: nat, n: nat, w: nat)
    requires m < Pow256(w) && n < Pow256(w)
    ensures LexLess(BigEndian(m, w), BigEndian(n, w)) <==> m < n
    ensures BigEndian(m, w) == BigEndian(n, w) <==> m == n
  {
    if w > 0 {
      BigEndianOrder(m / 256, n / 256, w - 1);
      LexConcat(BigEndian(m / 256, w - 1), BigEndian(n / 256, w - 1), [m % 256], [n % 256]);
      assert BigEndian(m, w)[..w - 1] == BigEndian(m / 256, w - 1) && BigEndian(m, w)[w - 1] == m % 256;
      assert BigEndian(n, w)[..w - 1] == BigEndian(n / 256, w - 1) && BigEndian(n, w)[w - 1] == n % 256;
    }
  }

  /** The number a big-endian byte string stands for. */
  function FromBigEndian(b: Bytes): nat
  {
    if b == [] then 0 else 256 * FromBigEndian(b[..|b| - 1]) + b[|b| - 1]
  }

  lemma {:induction false} BigEndianRoundTrip(n: nat, w: nat)
    requires n < Pow256(w)
    ensures FromBigEndian(BigEndian(n, w)) == n
  {
    if w > 0 {
      BigEndianRoundTrip(n / 256, w - 1);
      assert BigEndian(n, w)[..w - 1] == BigEndian(n / 256, w - 1);
    }
  }

  /** A key is sixteen bytes: the index, most significant byte first, then eight zeros
      in ASCII. */
  lemma EncodeKeyLayout(idx: nat)
    requires idx < U64
    ensures |EncodeKey(idx)| == 16 && FromBigEndian(EncodeKey(idx)[..8]) == idx
    ensures forall i | 8 <= i < 16 :: EncodeKey(idx)[i] == '0' as int
  {
    hide BigEndian, FromBigEndian, Pow256;
    Widths();
    BigEndianRoundTrip(idx, 8);
    assert EncodeKey(idx)[..8] == BigEndian(idx, 8);
  }

  /** Keys are in one-to-one correspondence with indices and sort as they do. */
  lemma EncodeKeyOrder(m: nat, n: nat)
    requires m < U64 && n < U64
    ensures LexLess(EncodeKey(m), EncodeKey(n)) <==> m < n
    ensures EncodeKey(m) == EncodeKey(n) <==> m == n
  {
    hide BigEndian, Pow256;
    Widths();
    BigEndianOrder(m, n, 8);
    LexConcat(BigEndian(m, 8), BigEndian(n, 8), PAD, PAD);
    LexIrreflexive(PAD);
    assert EncodeKey(m)[..8] == BigEndian(m, 8) && EncodeKey(n)[..8] == BigEndian(n, 8);
  }

  // ---- choosing an index ----

  /** How zipf.next's floating-point tests came out; Tail carries the converted
      power, any 64-bit word. */
  datatype Roll = Head | Neck | Tail(idx: nat)

  const SCALE: nat := 2654435761
  const OFFSET: nat := 0x5bd1e995
  const ZETA_CAP: nat := 5_000_000

  function ZipfNext(n: nat, roll: Roll): nat
    requires n > 0
  {
    match roll
    case Head => 0
    case Neck => 1
    case Tail(idx) =>
      var i := if idx >= n then n - 1 else idx;
      (i * SCALE + OFFSET) % U64 % n
  }

  /** The sum of the first terms, pow(i) being i to the theta, which is never zero. */
  function ZetaSum(limit: nat, pow: nat -> real): real
  {
    if limit == 0 then 0.0 else
    ZetaSum(limit - 1, pow) + if pow(limit) == 0.0 then 0.0 else 1.0 / pow(limit)
  }

  function ZetaStatic(n: nat, pow: nat -> real): real
  {
    ZetaSum(if n > ZETA_CAP then ZETA_CAP else n, pow)
  }

  /** Powers of at least 1 make the sum at least 1 and at most the number of keys. */
  lemma ZetaBounds(n: nat, pow: nat -> real)
    requires n > 0 && pow(1) == 1.0 && forall i | i >= 1 :: pow(i) >= 1.0
    ensures 1.0 <= ZetaStatic(n, pow) <= n as real
  {
    SumBounds(if n > ZETA_CAP then ZETA_CAP else n, pow);
  }

  lemma {:induction false} SumBounds(limit: nat, pow: nat -> real)
    requires limit > 0 && pow(1) == 1.0 && forall i | i >= 1 :: pow(i) >= 1.0
    ensures 1.0 <= ZetaSum(limit, pow) <= limit as real
  {
    if limit == 1 {
      assert ZetaSum(1, pow) == ZetaSum(0, pow) + 1.0 / pow(1);
    } else {
      SumBounds(limit - 1, pow);
      Reciprocal(pow(limit));
    }
  }

  lemma Reciprocal(x: real)
    requires x >= 1.0
    ensures 0.0 <= 1.0 / x <= 1.0
  {
  }

  /** The tests, for a uniform u; half is one half to the theta. */
  function RollOf(u: real, zetan: real, half: real, idx: nat): Roll
  {
    if u * zetan < 1.0 then Head else if u * zetan < 1.0 + half then Neck else Tail(idx)
  }

  /** Whatever the powers and the conversion come out as, the index is in range; with
      a single key the sum is 1, so every u below 1 passes the first test. */
  lemma ZipfInRange(n: nat, pow: nat -> real, u: real, half: real, idx: nat)
    requires n > 0 && 0.0 <= u < 1.0 && pow(1) == 1.0
    ensures ZipfNext(n, RollOf(u, ZetaStatic(n, pow), half, idx)) < n
  {
    if n == 1 {
      assert ZetaSum(1, pow) == ZetaSum(0, pow) + 1.0 / pow(1);
      assert u * 1.0 < 1.0;
    }
  }

  /** Which u choose which index: the share 1/zetan at the bottom chooses index 0, the
      share half/zetan above it index 1, and the rest the scrambled tail. */
  lemma ZipfShares(n: nat, zetan: real, u: real, half: real, idx: nat)
    requires n > 0 && zetan > 0.0 && half >= 0.0
    ensures u < 1.0 / zetan ==> ZipfNext(n, RollOf(u, zetan, half, idx)) == 0
    ensures 1.0 / zetan <= u < (1.0 + half) / zetan ==> ZipfNext(n, RollOf(u, zetan, half, idx)) == 1
    ensures (1.0 + half) / zetan <= u ==>
              ZipfNext(n, RollOf(u, zetan, half, idx)) ==
              ((if idx < n then idx else n - 1) * SCALE + OFFSET) % U64 % n
  {
    BelowQuotient(u, 1.0, zetan);
    BelowQuotient(u, 1.0 + half, zetan);
  }

  lemma BelowQuotient(u: real, x: real, z: real)
    requires z > 0.0
    ensures u < x / z <==> u * z < x
  {
    var q := x / z;
    assert q * z == x;
    if u < q {
      assert (q - u) * z > 0.0;
    } else {
      assert (u - q) * z >= 0.0;
    }
  }

  /** The recency-skewed choice; the square is a wrapping 64-bit product. */
  function LatestNext(head: nat, draw: nat): int
  {
    var span := if head == 0 then 1 else head;
    var z := draw % span;
    span - 1 - z * z % U64 / span
  }

  /** The choice is in range for every draw, although the square wraps. Where it does
      not wrap, and only there, the distance below the head is the square of the
      residue over the span, so small residues choose keys next to the head. */
  lemma LatestInRange(head: nat, draw: nat)
    requires head < U64 && draw < U64
    ensures var span := if head == 0 then 1 else head; 0 <= LatestNext(head, draw) < span
    ensures var span := if head == 0 then 1 else head;
            var z, below := draw % span, span - 1 - LatestNext(head, draw);
            z * z < U64 <==> below * span <= z * z < (below + 1) * span
  {
    var span := if head == 0 then 1 else head;
    var z := draw % span;
    Wraps(z * z);
    SquareOverSpan(span, z, z * z % U64);
    Remainder(z * z % U64, span);
  }

  lemma Wraps(x: nat)
    ensures x % U64 <= x && (if x < U64 then x % U64 == x else x % U64 <= x - U64)
  {
  }

  lemma SquareOverSpan(span: nat, z: nat, sq: nat)
    requires z < span && sq <= z * z
    ensures 0 <= sq / span < span
  {
    MulMonotone(z, z, span - 1);
    MulMonotone(span - 1, z, span - 1);
    assert (span - 1) * (span - 1) == span * span - 2 * span + 1;
    DivAtLeast(sq, span, span);
  }

  // ---- the scramble ----

  ghost predicate IsProduct(n: int, d: int, k: int)
  {
    n == d * k
  }

  ghost predicate Divides(d: int, n: int)
  {
    exists k :: IsProduct(n, d, k)
  }

  ghost predicate Coprime(a: nat, b: nat)
  {
    forall d: nat | d > 1 :: !(Divides(d, a) && Divides(d, b))
  }

  /** Euclid: a common divisor that is a combination of both. */
  lemma {:induction false} Bezout(a: nat, b: nat) returns (g: nat, x: int, y: int)
    requires a > 0
    ensures g > 0 && g == a * x + b * y && Divides(g, a) && Divides(g, b)
    decreases b
  {
    if b == 0 {
      g, x, y := a, 1, 0;
      assert IsProduct(a, g, 1) && IsProduct(b, g, 0);
    } else {
      var q, r := a / b, a % b;
      var x', y';
      g, x', y' := Bezout(b, r);
      x, y := y', x' - q * y';
      assert a == b * q + r;
      Recombine(a, b, q, r, x', y');
      DividesCombined(a, b, q, r, g);
    }
  }

  lemma DividesCombined(a: int, b: int, q: int, r: int, g: int)
    requires a == b * q + r && Divides(g, b) && Divides(g, r)
    ensures Divides(g, a)
  {
    var kb :| IsProduct(b, g, kb);
    var kr :| IsProduct(r, g, kr);
    assert g * kb * q + g * kr == g * (kb * q + kr);
    assert IsProduct(a, g, kb * q + kr);
  }

  lemma Recombine(a: int, b: int, q: int, r: int, x: int, y: int)
    requires a == b * q + r
    ensures b * x + r * y == a * y + b * (x - q * y)
  {
  }

  function Scramble(n: nat, i: nat): nat
    requires n > 0
  {
    (i * SCALE + OFFSET) % n
  }

  /** Without overflow the tail of ZipfNext is the scramble, of the last index for
      any power that reached the key count. */
  lemma TailIsScramble(n: nat, idx: nat)
    requires n > 0 && (n - 1) * SCALE + OFFSET < U64
    ensures idx < n ==> ZipfNext(n, Tail(idx)) == Scramble(n, idx)
    ensures idx >= n ==> ZipfNext(n, Tail(idx)) == Scramble(n, n - 1)
  {
    var i := if idx >= n then n - 1 else idx;
    MulMonotone(SCALE, i, n - 1);
    Wraps(i * SCALE + OFFSET);
  }

  ghost predicate Injective(n: nat)
    requires n > 0
  {
    forall i, j | 0 <= i < n && 0 <= j < n && Scramble(n, i) == Scramble(n, j) :: i == j
  }

  ghost predicate Reached(n: nat, y: nat)
    requires n > 0
  {
    exists i :: 0 <= i < n && Scramble(n, i) == y
  }

  ghost predicate Onto(n: nat)
    requires n > 0
  {
    forall y | 0 <= y < n :: Reached(n, y)
  }

  /** The scramble is a permutation of the key indices exactly when their number is
      coprime to its multiplier; otherwise it neither separates them nor reaches all. */
  lemma ScrambleIff(n: nat)
    requires n > 0
    ensures Injective(n) <==> Coprime(SCALE, n)
    ensures Onto(n) <==> Coprime(SCALE, n)
  {
    hide Scramble;
    if Coprime(SCALE, n) {
      forall i, j | 0 <= i < n && 0 <= j < n && Scramble(n, i) == Scramble(n, j)
        ensures i == j
      {
        CoprimeSeparates(n, i, j);
      }
      forall y | 0 <= y < n
        ensures Reached(n, y)
      {
        CoprimeReaches(n, y);
      }
    } else {
      var d: nat :| d > 1 && Divides(d, SCALE) && Divides(d, n);
      CommonDivisorCollides(n, d);
      CommonDivisorMisses(n, d);
    }
  }

  ghost predicate TailReaches(n: nat, y: nat)
    requires n > 0
  {
    exists i :: 0 <= i < n && ZipfNext(n, Tail(i)) == y
  }

  /** So without overflow the generator's tail reaches every key, and each from one
      index, exactly then. */
  lemma TailReachesAllIff(n: nat)
    requires n > 0 && (n - 1) * SCALE + OFFSET < U64
    ensures (forall y | 0 <= y < n :: TailReaches(n, y)) <==> Coprime(SCALE, n)
    ensures (forall i, j | 0 <= i < n && 0 <= j < n && ZipfNext(n, Tail(i)) == ZipfNext(n, Tail(j)) :: i == j)
            <==> Coprime(SCALE, n)
  {
    hide Scramble, ZipfNext, Coprime;
    ScrambleIff(n);
    forall i | 0 <= i < n
      ensures ZipfNext(n, Tail(i)) == Scramble(n, i)
    {
      TailIsScramble(n, i);
    }
    forall y | 0 <= y < n
      ensures TailReaches(n, y) <==> Reached(n, y)
    {
    }
    if !Injective(n) {
      var i, j :| 0 <= i < n && 0 <= j < n && Scramble(n, i) == Scramble(n, j) && i != j;
      assert ZipfNext(n, Tail(i)) == ZipfNext(n, Tail(j));
    }
  }

  /** The preimage of y, from the inverse of the multiplier. */
  lemma CoprimeReaches(n: nat, y: nat)
    requires y < n && Coprime(SCALE, n)
    ensures Reached(n, y)
  {
    var g, x, z := Bezout(SCALE, n);
    assert g == 1;
    var v := x * (y - OFFSET);
    var q, i := v / n, v % n;
    assert v == n * q + i;
    hide Scramble, Coprime, Divides;
    ReachedAt(n, y, x, z, q, i);
  }

  lemma ReachedAt(n: nat, y: nat, x: int, z: int, q: int, i: nat)
    requires y < n && i < n && SCALE * x + n * z == 1 && x * (y - OFFSET) == n * q + i
    ensures Scramble(n, i) == y
  {
    Preimage(n, y, x, z, q, i);
    ResidueIs(n, i * SCALE + OFFSET, -z * (y - OFFSET) - q * SCALE, y);
  }

  lemma Preimage(n: int, y: int, x: int, z: int, q: int, i: int)
    requires SCALE * x + n * z == 1 && x * (y - OFFSET) == n * q + i
    ensures i * SCALE + OFFSET == n * (-z * (y - OFFSET) - q * SCALE) + y
  {
    var w := y - OFFSET;
    assert SCALE * x * w == w - n * z * w by {
      assert (SCALE * x + n * z) * w == SCALE * x * w + n * z * w;
    }
    assert i * SCALE == SCALE * (x * w) - n * q * SCALE;
    assert n * (-z * w - q * SCALE) == -(n * z * w) - n * q * SCALE;
  }

  /** Every scrambled index is congruent to the first modulo a common divisor, so its
      neighbour is never reached. */
  lemma CommonDivisorMisses(n: nat, d: nat)
    requires n > 0 && d > 1 && Divides(d, SCALE) && Divides(d, n)
    ensures !Onto(n)
  {
    var c :| IsProduct(SCALE, d, c);
    var m :| IsProduct(n, d, m);
    assert n >= d by {
      assert m >= 1;
      MulMonotone(d, 1, m);
    }
    var y := Scramble(n, 0);
    var y' := if y + 1 < n then y + 1 else y - 1;
    forall i | 0 <= i < n
      ensures Scramble(n, i) != y'
    {
      Congruent(n, d, c, m, i);
    }
    assert !Reached(n, y');
  }

  lemma Congruent(n: nat, d: nat, c: int, m: int, i: nat)
    requires n > 0 && d > 1 && IsProduct(SCALE, d, c) && IsProduct(n, d, m)
    ensures Scramble(n, i) - Scramble(n, 0) != 1 && Scramble(n, i) - Scramble(n, 0) != -1
  {
    var v, q, q0 := i * SCALE + OFFSET, (i * SCALE + OFFSET) / n, OFFSET / n;
    assert v == n * q + Scramble(n, i) && OFFSET == n * q0 + Scramble(n, 0);
    var f := i * c - m * (q - q0);
    assert Scramble(n, i) - Scramble(n, 0) == d * f by {
      assert i * SCALE == d * (i * c);
      assert n * (q - q0) == d * (m * (q - q0));
      assert n * q - n * q0 == n * (q - q0);
    }
    if Scramble(n, i) - Scramble(n, 0) == 1 || Scramble(n, i) - Scramble(n, 0) == -1 {
      SmallMultiple(d, f, d * f);
    }
  }

  lemma CoprimeSeparates(n: nat, i: nat, j: nat)
    requires n > 0 && Coprime(SCALE, n) && i < n && j < n && Scramble(n, i) == Scramble(n, j)
    ensures i == j
  {
    var g, x, y := Bezout(SCALE, n);
    assert g == 1;
    var a, b := i * SCALE + OFFSET, j * SCALE + OFFSET;
    var k := a / n - b / n;
    assert a - b == n * k by {
      assert a == n * (a / n) + a % n && b == n * (b / n) + b % n;
      assert n * (a / n) - n * (b / n) == n * k;
    }
    var e := i - j;
    assert e * SCALE == n * k;
    Combine(e, n, k, x, y);
    var f := x * k + y * e;
    SmallMultiple(n, f, e);
  }

  lemma Combine(e: int, n: int, k: int, x: int, y: int)
    requires SCALE * x + n * y == 1 && e * SCALE == n * k
    ensures e == n * (x * k + y * e)
  {
  }

  lemma CommonDivisorCollides(n: nat, d: nat)
    requires n > 0 && d > 1 && Divides(d, SCALE) && Divides(d, n)
    ensures !Injective(n)
  {
    var c :| IsProduct(SCALE, d, c);
    var m :| IsProduct(n, d, m);
    assert 0 < m < n;
    assert m * SCALE == m * (d * c) == (d * m) * c == n * c;
    SameResidue(n, c, OFFSET);
    assert Scramble(n, m) == Scramble(n, 0);
  }
}
