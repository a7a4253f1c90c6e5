/** Bucket arithmetic of the log-linear histogram: 128 slots per power of two. */
module Buckets {
  import opened Arith

  const SUB: nat := 128
  const BUCKETS: nat := 64 * SUB
  const TOP: nat := U64 / 2

  /** floor(log2(v)). */
  function Log2(v: nat): (m: nat)
    requires v > 0
    ensures Pow2(m) <= v < Pow2(m + 1)
  {
    if v == 1 then 0 else 1 + Log2(v / 2)
  }

  lemma Log2Unique(v: nat, m: nat)
    requires v > 0 && Pow2(m) <= v < Pow2(m + 1)
    ensures Log2(v) == m
  {
    var l := Log2(v);
    if l < m {
      Pow2Monotone(l + 1, m);
    } else if m < l {
      Pow2Monotone(m + 1, l);
    }
  }

  /** Bit i of a number below 2^(i+1). */
  lemma TopBit(v: nat, i: nat)
    requires v < Pow2(i + 1)
    ensures if v < Pow2(i) then v / Pow2(i) == 0 else v / Pow2(i) == 1
  {
    hide Pow2;
    Doubling(i);
    DivAtLeast(v, Pow2(i), 1);
    DivAtLeast(v, Pow2(i), 2);
  }

  /** The loop over the bits from the top; bit i of v is v / 2^i % 2. */
  method LeadingZeros(v: nat) returns (n: nat)
    requires v < U64
    ensures v == 0 ==> n == 64
    ensures v > 0 ==> n == 63 - Log2(v)
  {
    hide Pow2, Log2;
    Pow2Values();
    n := 0;
    var i := 63;
    while i >= 0
      invariant -1 <= i <= 63 && n == 63 - i && v < Pow2(i + 1)
    {
      var p := Pow2(i);
      TopBit(v, i);
      if v / p % 2 != 0 {
        Log2Unique(v, i);
        return;
      }
      n := n + 1;
      i := i - 1;
    }
    Doubling(0);
  }

  /** The index of a sample's bucket. */
  function Index(v: nat): (i: nat)
  {
    if v < SUB then v else
    var mag := Log2(v);
    if mag < 6 then 0 else mag * SUB + v / Pow2(mag - 6) % SUB
  }

  /** index, with the bit loop. */
  method ComputeIndex(v: nat) returns (i: nat)
    requires v < U64
    ensures i == Index(v)
  {
    hide Pow2, Log2;
    if v < SUB {
      return v;
    }
    var lz := LeadingZeros(v);
    var mag := 63 - lz;
    Magnitude(v);
    var shift := mag - 6;
    var sub := v / Pow2(shift) % SUB;
    return mag * SUB + sub;
  }

  /** The low end of v's bucket, for v at or above 128. */
  function Floor(v: nat): nat
    requires v > 0
  {
    if v < SUB then v else
    var mag := Log2(v);
    if mag < 6 then v else v / Pow2(mag - 6) * Pow2(mag - 6)
  }

  /** What the magnitude and the sub-bucket of v >= 128 are. */
  lemma Magnitude(v: nat)
    requires SUB <= v < U64
    ensures var m := Log2(v);
            && 7 <= m <= 63
            && 64 <= v / Pow2(m - 6) < 128
            && Index(v) == m * SUB + v / Pow2(m - 6)
            && Pow2(m) == 64 * Pow2(m - 6)
            && Floor(v) <= v < Floor(v) + Pow2(m - 6)
            && Pow2(m) <= Floor(v)
  {
    hide Pow2, Log2;
    var m := Log2(v);
    Pow2Values();
    if m < 7 {
      Pow2Monotone(m + 1, 7);
    } else if m > 63 {
      Pow2Monotone(64, m);
    }
    var p := Pow2(m - 6);
    Pow2Sum(6, m - 6);
    Doubling(m);
    DivAtLeast(v, p, 64);
    DivAtLeast(v, p, 128);
    Remainder(v, p);
    MulMonotone(p, 64, v / p);
    assert p * (v / p) == v / p * p;
  }

  lemma IndexBounds(v: nat)
    requires v < U64
    ensures Index(v) < BUCKETS && (v < SUB ==> Index(v) == v)
    ensures v >= SUB ==> Log2(v) * SUB + 64 <= Index(v) < (Log2(v) + 1) * SUB && Index(v) >= 960
  {
    if v >= SUB {
      Magnitude(v);
    }
  }

  /** A larger sample never lands in a lower bucket. */
  lemma IndexMonotone(a: nat, b: nat)
    requires a <= b < U64
    ensures Index(a) <= Index(b)
  {
    hide Pow2, Log2;
    IndexBounds(a);
    IndexBounds(b);
    if a >= SUB {
      Magnitude(a);
      Magnitude(b);
      LogMonotone(a, b);
      if Log2(a) == Log2(b) {
        DivMonotone(a, b, Pow2(Log2(a) - 6));
      }
    }
  }

  /** Samples that share a bucket differ by less than one sixty-fourth. */
  lemma BucketWidth(v: nat, w: nat)
    requires v < U64 && w < U64 && Index(v) == Index(w)
    ensures v < SUB ==> v == w
    ensures v >= SUB ==> w >= SUB && Floor(v) == Floor(w) && 64 * (v - w) < v && 64 * (w - v) < v
  {
    hide Pow2, Log2;
    IndexBounds(v);
    IndexBounds(w);
    if v >= SUB {
      Magnitude(v);
      Magnitude(w);
      assert Log2(v) == Log2(w);
    }
  }

  // ---- the representative of a bucket ----

  /** valueAt as written: 128 + sub shifted left, on 64-bit words. Bucket indices 128
      to 767 hold no sample; there the unsigned shift count wraps and the shift
      leaves nothing. */
  function ValueAt(i: nat): nat
  {
    if i < SUB then i else
    var mag, sub := i / SUB, i % SUB;
    if mag < 6 then 0 else (SUB + sub) * Pow2(mag - 6) % U64
  }

  /** The exact law: below 2^63 the representative is the low end of the sample's
      bucket plus twice its magnitude; from 2^63 up the excess wraps away. */
  lemma ValueAtLaw(v: nat)
    requires v < U64
    ensures v < SUB ==> ValueAt(Index(v)) == v
    ensures SUB <= v < TOP ==> ValueAt(Index(v)) == Floor(v) + Pow2(Log2(v) + 1)
    ensures TOP <= v ==> ValueAt(Index(v)) == Floor(v)
  {
    hide Pow2, Log2, ValueAt, Index;
    if v < SUB {
      BelowSub(v);
    } else {
      var m := Log2(v);
      Magnitude(v);
      Pow2Values();
      Unwrapped(v);
      Doubling(m);
      if v < TOP {
        TopMagnitude(v);
        Doubling(m + 1);
        Pow2Monotone(m + 2, 64);
      } else {
        Log2Unique(v, 63);
      }
    }
  }

  lemma BelowSub(v: nat)
    requires v < SUB
    ensures ValueAt(Index(v)) == v
  {
  }

  /** The representative before and after it wraps. */
  lemma Unwrapped(v: nat)
    requires SUB <= v < U64
    ensures ValueAt(Index(v)) == (Pow2(Log2(v) + 1) + Floor(v)) % U64
  {
    hide Pow2, Log2;
    var m := Log2(v);
    Magnitude(v);
    var p, q := Pow2(m - 6), v / Pow2(m - 6);
    assert Index(v) / SUB == m && Index(v) % SUB == q;
    assert (SUB + q) * p == SUB * p + q * p;
    Doubling(m);
  }

  lemma TopMagnitude(v: nat)
    requires 0 < v < TOP
    ensures Log2(v) <= 62
  {
    hide Pow2, Log2;
    Pow2Values();
    if Log2(v) >= 63 {
      Pow2Monotone(63, Log2(v));
    }
  }

  /** The representative lies in the sample's own bucket exactly for samples below
      128 or at least 2^63; in between it exceeds the sample, and lands in a bucket of
      the next magnitude. */
  lemma RepresentativeIff(v: nat)
    requires v < U64
    ensures ValueAt(Index(v)) < U64
    ensures Index(ValueAt(Index(v))) == Index(v) <==> v < SUB || v >= TOP
    ensures ValueAt(Index(v)) <= v <==> v < SUB || v >= TOP
    ensures SUB <= v < TOP ==> ValueAt(Index(v)) > v && Log2(ValueAt(Index(v))) == Log2(v) + 1
  {
    hide Pow2, Log2, ValueAt;
    ValueAtLaw(v);
    IndexBounds(v);
    if SUB <= v < TOP {
      var m, r := Log2(v), ValueAt(Index(v));
      Magnitude(v);
      Pow2Values();
      TopMagnitude(v);
      Doubling(m);
      Doubling(m + 1);
      Pow2Monotone(m + 2, 64);
      Log2Unique(r, m + 1);
      IndexBounds(r);
    } else if v >= TOP {
      FloorSameBucket(v);
      Magnitude(v);
    }
  }

  /** A sample of 128 is reported as 384, and a sample just under 2^63 is reported above
      one of 2^63. */
  lemma Misreports()
    ensures Index(128) == 960 && ValueAt(960) == 384
    ensures ValueAt(Index(TOP - 1)) > ValueAt(Index(TOP))
  {
    hide Pow2, Log2, ValueAt;
    Pow2Values();
    Doubling(7);
    Doubling(0);
    Log2Unique(128, 7);
    Magnitude(128);
    ValueAtLaw(128);
    Magnitude(TOP - 1);
    Magnitude(TOP);
    ValueOrderIff(TOP - 1, TOP);
    Log2Unique(TOP - 1, 62);
    Log2Unique(TOP, 63);
    Pow2Sum(6, 56);
    Pow2Sum(1, 56);
  }

  lemma FloorSameBucket(v: nat)
    requires SUB <= v < U64
    ensures Index(Floor(v)) == Index(v)
  {
    hide Pow2, Log2;
    var m, f := Log2(v), Floor(v);
    Magnitude(v);
    Log2Unique(f, m);
    Magnitude(f);
    var p := Pow2(m - 6);
    DivAtLeast(f, p, v / p);
    DivMonotone(f, v, p);
  }

  /** Representatives keep the order of samples, except when the smaller sample is in
      the top magnitude below 2^63 and the larger is too close above 2^63. */
  lemma ValueOrderIff(a: nat, b: nat)
    requires a <= b < U64
    ensures ValueAt(Index(a)) <= ValueAt(Index(b)) <==> !(TOP / 2 <= a < TOP <= b && Floor(b) < Floor(a) + TOP)
  {
    hide Pow2, Log2, ValueAt, Index, Floor;
    ValueAtLaw(a);
    ValueAtLaw(b);
    if b >= TOP {
      FloorAtLeastTop(b);
      if SUB <= a < TOP {
        BelowTop(a);
      } else if TOP <= a {
        FloorMonotone(a, b);
      }
    } else if SUB <= a {
      FloorMonotone(a, b);
      LogMonotone(a, b);
      Pow2Monotone(Log2(a) + 1, Log2(b) + 1);
    } else if SUB <= b {
      RepresentativeIff(b);
    }
  }

  lemma FloorAtLeastTop(b: nat)
    requires TOP <= b < U64
    ensures TOP <= Floor(b)
  {
    hide Pow2, Log2;
    Magnitude(b);
    Pow2Values();
    Log2Unique(b, 63);
  }

  lemma LogMonotone(a: nat, b: nat)
    requires 0 < a <= b
    ensures Log2(a) <= Log2(b)
  {
  }

  lemma FloorMonotone(a: nat, b: nat)
    requires SUB <= a <= b < U64
    ensures Floor(a) <= Floor(b)
  {
    hide Pow2, Log2;
    Magnitude(a);
    Magnitude(b);
    LogMonotone(a, b);
    var m := Log2(a);
    if m == Log2(b) {
      DivMonotone(a, b, Pow2(m - 6));
    } else {
      Pow2Monotone(m + 1, Log2(b));
    }
  }

  /** Below 2^62 the representative stays under 2^63; from there up to 2^63 it is the
      bucket's low end plus 2^63. */
  lemma BelowTop(a: nat)
    requires SUB <= a < TOP
    ensures a < TOP / 2 ==> ValueAt(Index(a)) < TOP
    ensures a >= TOP / 2 ==> ValueAt(Index(a)) == Floor(a) + TOP
  {
    hide Pow2, Log2, ValueAt, Index;
    ValueAtLaw(a);
    Pow2Values();
    Magnitude(a);
    var m := Log2(a);
    if a >= TOP / 2 {
      Log2Unique(a, 62);
    } else {
      if m >= 62 {
        Pow2Monotone(62, m);
      }
      Doubling(m);
      Doubling(m + 1);
      Pow2Monotone(m + 2, 63);
    }
  }
}

/** The histogram as a summary of a multiset of samples. */
module Hdr {
  import opened Arith
  import opened Buckets

  // ---- counting samples ----

  /** The questions the histogram answers about a sample. */
  datatype Test = InBucket(b: nat) | BelowBucket(b: nat) | Less(x: nat) | AtMost(x: nat)

  predicate Holds(t: Test, v: nat)
  {
    match t
    case InBucket(b) => Index(v) == b
    case BelowBucket(b) => Index(v) < b
    case Less(x) => v < x
    case AtMost(x) => v <= x
  }

  ghost function Count(samples: seq<nat>, t: Test): nat
  {
    if samples == [] then 0 else
    Count(samples[..|samples| - 1], t) + if Holds(t, samples[|samples| - 1]) then 1 else 0
  }

  lemma {:induction false} CountConcat(a: seq<nat>, b: seq<nat>, t: Test)
    ensures Count(a + b, t) == Count(a, t) + Count(b, t)
  {
    hide Holds;
    if b == [] {
      assert a + b == a;
    } else {
      CountConcat(a, b[..|b| - 1], t);
      assert (a + b)[..|a + b| - 1] == a + b[..|b| - 1];
    }
  }

  /** Whatever follows from one test for every sample follows for the counts. */
  lemma {:induction false} CountImplies(samples: seq<nat>, t: Test, u: Test)
    requires forall i | 0 <= i < |samples| && Holds(t, samples[i]) :: Holds(u, samples[i])
    ensures Count(samples, t) <= Count(samples, u) <= |samples|
  {
    hide Holds;
    if samples != [] {
      CountImplies(samples[..|samples| - 1], t, u);
    }
  }

  lemma {:induction false} CountAll(samples: seq<nat>, t: Test)
    requires forall i | 0 <= i < |samples| :: Holds(t, samples[i])
    ensures Count(samples, t) == |samples|
  {
    hide Holds;
    if samples != [] {
      CountAll(samples[..|samples| - 1], t);
    }
  }

  lemma {:induction false} CountNextBucket(samples: seq<nat>, b: nat)
    ensures Count(samples, BelowBucket(b + 1)) == Count(samples, BelowBucket(b)) + Count(samples, InBucket(b))
  {
    hide Index;
    if samples != [] {
      CountNextBucket(samples[..|samples| - 1], b);
    }
  }

  /** Counts depend on the multiset of samples only. */
  lemma {:induction false} CountPermuted(a: seq<nat>, b: seq<nat>, t: Test)
    requires multiset(a) == multiset(b)
    ensures Count(a, t) == Count(b, t)
  {
    hide Holds;
    if a == [] {
      assert |b| == |multiset(b)| == 0;
    } else {
      var n := |a| - 1;
      var x, rest := a[n], a[..n];
      assert a == rest + [x];
      assert x in multiset(b);
      var k :| 0 <= k < |b| && b[k] == x;
      var l, r := b[..k], b[k + 1..];
      assert b == l + [x] + r;
      RemoveOne(rest, l, r, x);
      CountPermuted(rest, l + r, t);
      CountConcat(l, r, t);
      CountConcat(l + [x], r, t);
      CountConcat(l, [x], t);
      CountConcat(rest, [x], t);
    }
  }

  lemma RemoveOne<T>(rest: seq<T>, l: seq<T>, r: seq<T>, x: T)
    requires multiset(rest + [x]) == multiset(l + [x] + r)
    ensures multiset(rest) == multiset(l + r)
  {
    assert multiset(rest + [x]) == multiset(rest) + multiset{x};
    assert multiset(l + [x] + r) == multiset(l + r) + multiset{x};
    assert multiset(rest) == multiset(rest + [x]) - multiset{x};
    assert multiset(l + r) == multiset(l + [x] + r) - multiset{x};
  }

  // ---- ranks ----

  /** x is the rank-th smallest sample. */
  ghost predicate IsRank(samples: seq<nat>, rank: nat, x: nat)
  {
    x in samples && Count(samples, Less(x)) < rank <= Count(samples, AtMost(x))
  }

  ghost predicate Sorted(s: seq<nat>)
  {
    forall i, j | 0 <= i < j < |s| :: s[i] <= s[j]
  }

  /** In sorted order the rank-th smallest is the one at position rank - 1. */
  lemma RankInSorted(samples: seq<nat>, sorted: seq<nat>, rank: nat)
    requires Sorted(sorted) && multiset(sorted) == multiset(samples) && 1 <= rank <= |sorted|
    ensures IsRank(samples, rank, sorted[rank - 1])
  {
    hide Count, Sorted;
    var x := sorted[rank - 1];
    CountPermuted(sorted, samples, Less(x));
    CountPermuted(sorted, samples, AtMost(x));
    FewBefore(sorted, rank - 1);
    ManyUpTo(sorted, rank - 1);
    assert x in multiset(sorted);
    assert x in multiset(samples);
  }

  lemma FewBefore(sorted: seq<nat>, i: nat)
    requires Sorted(sorted) && i < |sorted|
    ensures Count(sorted, Less(sorted[i])) <= i
  {
    hide Count;
    var lo, hi, test := sorted[..i], sorted[i..], Less(sorted[i]);
    assert sorted == lo + hi;
    CountConcat(lo, hi, test);
    CountNone(hi, sorted[i]);
    CountImplies(lo, test, test);
  }

  lemma ManyUpTo(sorted: seq<nat>, i: nat)
    requires Sorted(sorted) && i < |sorted|
    ensures Count(sorted, AtMost(sorted[i])) > i
  {
    hide Count;
    var upto, above, test := sorted[..i + 1], sorted[i + 1..], AtMost(sorted[i]);
    assert sorted == upto + above;
    CountConcat(upto, above, test);
    CountAll(upto, test);
  }

  lemma {:induction false} CountNone(s: seq<nat>, x: nat)
    requires forall i | 0 <= i < |s| :: s[i] >= x
    ensures Count(s, Less(x)) == 0
  {
    if s != [] {
      CountNone(s[..|s| - 1], x);
    }
  }

  /** Every rank from 1 to the number of samples belongs to some sample. */
  lemma RankExists(samples: seq<nat>, rank: nat) returns (x: nat)
    requires 1 <= rank <= |samples|
    ensures IsRank(samples, rank, x)
  {
    var hi := Bound(samples);
    CountAll(samples, AtMost(hi));
    x := LeastAtMost(samples, rank, hi);
    if x !in samples {
      CountImplies(samples, AtMost(x), Less(x));
    }
  }

  lemma {:induction false} Bound(samples: seq<nat>) returns (hi: nat)
    ensures forall i | 0 <= i < |samples| :: samples[i] <= hi
  {
    hi := 0;
    if samples != [] {
      var n := |samples| - 1;
      hi := Bound(samples[..n]);
      assert forall i | 0 <= i < n :: samples[i] == samples[..n][i];
      if samples[n] > hi {
        hi := samples[n];
      }
    }
  }

  lemma {:induction false} LeastAtMost(samples: seq<nat>, rank: nat, hi: nat) returns (x: nat)
    requires 1 <= rank <= Count(samples, AtMost(hi))
    ensures Count(samples, Less(x)) < rank <= Count(samples, AtMost(x))
    decreases hi
  {
    if hi > 0 && rank <= Count(samples, AtMost(hi - 1)) {
      x := LeastAtMost(samples, rank, hi - 1);
    } else {
      x := hi;
      if hi == 0 {
        CountNone(samples, 0);
      } else {
        CountImplies(samples, Less(hi), AtMost(hi - 1));
      }
    }
  }

  ghost predicate InRange(samples: seq<nat>)
  {
    forall i | 0 <= i < |samples| :: samples[i] < U64
  }

  /** Fewer than rank samples lie below the rank-th smallest's bucket, and at least
      rank lie in it or below. */
  lemma RankBucket(samples: seq<nat>, rank: nat, x: nat)
    requires InRange(samples) && IsRank(samples, rank, x)
    ensures Count(samples, BelowBucket(Index(x))) < rank <= Count(samples, BelowBucket(Index(x) + 1))
    ensures Count(samples, InBucket(Index(x))) > 0
    ensures Index(x) < BUCKETS && (Index(x) < SUB || Index(x) / SUB >= 7)
  {
    hide Index;
    IndexBounds(x);
    forall i | 0 <= i < |samples|
      ensures samples[i] >= x ==> Index(samples[i]) >= Index(x)
      ensures samples[i] <= x ==> Index(samples[i]) <= Index(x)
    {
      if samples[i] >= x {
        IndexMonotone(x, samples[i]);
      } else {
        IndexMonotone(samples[i], x);
      }
    }
    CountImplies(samples, BelowBucket(Index(x)), Less(x));
    CountImplies(samples, AtMost(x), BelowBucket(Index(x) + 1));
    CountNextBucket(samples, Index(x));
  }

  lemma {:induction false} CountBelowMonotone(samples: seq<nat>, a: nat, b: nat)
    requires a <= b
    ensures Count(samples, BelowBucket(a)) <= Count(samples, BelowBucket(b))
  {
    CountImplies(samples, BelowBucket(a), BelowBucket(b));
  }

  /** math.Ceil, on numbers that are not negative. */
  function Ceil(x: real): (c: nat)
    requires x >= 0.0
    ensures c as real >= x && (c as real) - x < 1.0
  {
    if x.Floor as real == x then x.Floor else x.Floor + 1
  }

  /** The share of the count a percentile asks for. */
  function Share(p: real, total: nat): (x: real)
    requires p >= 0.0
    ensures x >= 0.0
  {
    ShareBounds(p / 100.0, p / 100.0, total as real);
    p / 100.0 * total as real
  }

  lemma ShareBounds(x: real, y: real, t: real)
    requires 0.0 <= x <= y && t >= 0.0
    ensures 0.0 <= x * t <= y * t && (y <= 1.0 ==> y * t <= t) && (y == 1.0 ==> y * t == t)
  {
  }

  lemma ShareMonotone(p: real, q: real, total: nat)
    requires 0.0 <= p <= q
    ensures Share(p, total) <= Share(q, total) && (q <= 100.0 ==> Share(q, total) <= total as real)
    ensures Share(100.0, total) == total as real
  {
    var x, y, t := p / 100.0, q / 100.0, total as real;
    ShareBounds(x, y, t);
    assert Share(p, total) == x * t && Share(q, total) == y * t;
    assert q <= 100.0 ==> y <= 1.0;
    ShareOfAll(total);
  }

  lemma ShareOfAll(total: nat)
    ensures Share(100.0, total) == total as real
  {
    assert 100.0 / 100.0 == 1.0;
    ShareBounds(1.0, 1.0, total as real);
  }

  /** The rank a percentile asks for. */
  function Rank(p: real, total: nat): (r: nat)
    requires p >= 0.0
    ensures r >= 1
  {
    var target := Ceil(Share(p, total));
    if target == 0 then 1 else target
  }

  /** Percentiles up to 100 ask for ranks within the count, higher ones for higher
      ranks, and the 100th for the largest sample. */
  lemma RankBounds(p: real, q: real, total: nat)
    requires 0.0 <= p <= q && total > 0
    ensures Rank(p, total) <= Rank(q, total)
    ensures q <= 100.0 ==> Rank(q, total) <= total
    ensures Rank(100.0, total) == total
  {
    hide Ceil, Share;
    ShareMonotone(p, q, total);
    CeilMonotone(Share(p, total), Share(q, total));
    if q <= 100.0 {
      CeilMonotone(Share(q, total), total as real);
    }
    CeilMonotone(total as real, total as real);
  }

  /** A percentile above 100 asks for more than there is. */
  lemma PastTheEnd(p: real, total: nat)
    requires p >= 0.0 && total > 0
    ensures p > 100.0 <==> Rank(p, total) > total
  {
    RankLeast(p, total, total);
    var t := total as real;
    if p > 100.0 {
      ShareBounds(100.0, p, t);
      assert p * t - 100.0 * t == (p - 100.0) * t;
    } else {
      ShareBounds(p, 100.0, t);
    }
  }

  /** The rank is the least positive one that covers p percent of the count. */
  lemma RankLeast(p: real, total: nat, r: nat)
    requires p >= 0.0 && r >= 1
    ensures Rank(p, total) <= r <==> p * total as real <= 100.0 * r as real
  {
    var x := Share(p, total);
    Hundredfold(p, total as real);
    assert Ceil(x) <= r <==> x <= r as real;
  }

  lemma Hundredfold(p: real, t: real)
    ensures 100.0 * (p / 100.0 * t) == p * t
  {
    var q := p / 100.0;
    assert p == 100.0 * q;
    assert 100.0 * q * t == 100.0 * (q * t);
  }

  /** x is where p percent of the samples are reached: at least that share is at most x,
      and less than that share, unless x is the smallest, is below x. */
  ghost predicate AtPercentile(samples: seq<nat>, p: real, x: nat)
  {
    && x in samples
    && p * |samples| as real <= 100.0 * Count(samples, AtMost(x)) as real
    && (100.0 * Count(samples, Less(x)) as real < p * |samples| as real || forall y | y in samples :: x <= y)
  }

  lemma RankMeans(samples: seq<nat>, p: real, x: nat)
    requires p >= 0.0 && IsRank(samples, Rank(p, |samples|), x)
    ensures AtPercentile(samples, p, x)
  {
    hide Rank, Count;
    var below, upTo := Count(samples, Less(x)), Count(samples, AtMost(x));
    RankLeast(p, |samples|, upTo);
    if below >= 1 {
      RankLeast(p, |samples|, below);
    } else {
      forall y | y in samples
        ensures x <= y
      {
        if y < x {
          CountOne(samples, y, Less(x));
        }
      }
    }
  }

  lemma {:induction false} CountOne(samples: seq<nat>, y: nat, t: Test)
    requires y in samples && Holds(t, y)
    ensures Count(samples, t) >= 1
  {
    hide Holds;
    var n := |samples| - 1;
    if samples[n] != y {
      CountOne(samples[..n], y, t);
    }
  }

  lemma CeilMonotone(x: real, y: real)
    requires 0.0 <= x <= y
    ensures Ceil(x) <= Ceil(y) && (y.Floor as real == y ==> Ceil(y) as real == y)
  {
  }

  // ---- the histogram ----

  const MAX_U64: nat := U64 - 1

  ghost predicate IsMin(samples: seq<nat>, m: nat)
  {
    if samples == [] then m == MAX_U64 else m in samples && forall i | 0 <= i < |samples| :: m <= samples[i]
  }

  ghost predicate IsMax(samples: seq<nat>, m: nat)
  {
    if samples == [] then m == 0 else m in samples && forall i | 0 <= i < |samples| :: samples[i] <= m
  }

  /** The samples a corrected record stands for: ns, then one every interval below it
      down to the interval itself. */
  function Backfill(ns: nat, interval: nat): (r: seq<nat>)
    ensures |r| == if interval == 0 || ns <= interval then 1 else ns / interval
    ensures forall i | 0 <= i < |r| :: r[i] == ns - i * interval
  {
    if interval == 0 || ns <= interval then [ns]
    else if ns - interval < interval then
      assert ns / interval == 1 by { QuotientStep(ns, interval); }
      [ns]
    else
      assert ns / interval == 1 + (ns - interval) / interval by { QuotientStep(ns, interval); }
      [ns] + Backfill(ns - interval, interval)
  }

  lemma QuotientStep(ns: nat, d: nat)
    requires 0 < d <= ns
    ensures ns / d == 1 + (ns - d) / d
  {
    DivAtLeast(ns, d, 1 + (ns - d) / d);
    DivAtLeast(ns, d, 2 + (ns - d) / d);
  }

  lemma RecordOne(samples: seq<nat>, ns: nat)
    ensures forall b: nat ::
              Count(samples + [ns], InBucket(b)) == Count(samples, InBucket(b)) + if Index(ns) == b then 1 else 0
  {
  }

  lemma Extremes(samples: seq<nat>, ns: nat, min: nat, max: nat)
    requires IsMin(samples, min) && IsMax(samples, max) && ns < U64
    ensures IsMin(samples + [ns], if ns < min then ns else min)
    ensures IsMax(samples + [ns], if ns > max then ns else max)
  {
  }

  lemma MergedCounts(a: seq<nat>, b: seq<nat>)
    ensures forall i: nat :: Count(a + b, InBucket(i)) == Count(a, InBucket(i)) + Count(b, InBucket(i))
  {
    hide Count;
    forall i: nat
      ensures Count(a + b, InBucket(i)) == Count(a, InBucket(i)) + Count(b, InBucket(i))
    {
      CountConcat(a, b, InBucket(i));
    }
  }

  /** The other histogram's extremes matter only if it holds a sample. */
  lemma MergedExtremes(a: seq<nat>, b: seq<nat>, mina: nat, maxa: nat, minb: nat, maxb: nat)
    requires IsMin(a, mina) && IsMax(a, maxa) && IsMin(b, minb) && IsMax(b, maxb) && InRange(b)
    ensures IsMin(a + b, if |b| > 0 && minb < mina then minb else mina)
    ensures IsMax(a + b, if |b| > 0 && maxb > maxa then maxb else maxa)
  {
  }

  class Histogram {
    const counts: array<nat>
    var min: nat
    var max: nat
    var total: nat
    ghost var samples: seq<nat>

    ghost predicate Valid()
      reads this, counts
    {
      && counts.Length == BUCKETS && InRange(samples)
      && (forall b | 0 <= b < BUCKETS :: counts[b] == Count(samples, InBucket(b)))
      && total == |samples| && IsMin(samples, min) && IsMax(samples, max)
    }

    constructor ()
      ensures Valid() && samples == [] && fresh(counts)
    {
      counts := new nat[BUCKETS](_ => 0);
      min, max, total, samples := MAX_U64, 0, 0, [];
    }

    method Record(ns: nat)
      requires Valid() && ns < U64
      modifies this, counts
      ensures Valid() && samples == old(samples) + [ns]
    {
      hide Index, Count, IsMin, IsMax;
      RecordOne(samples, ns);
      Extremes(samples, ns, min, max);
      var i: int := ComputeIndex(ns);
      IndexBounds(ns);
      var last := counts.Length - 1;
      if i > last {
        i := last;
      }
      counts[i] := counts[i] + 1;
      total := total + 1;
      if ns < min {
        min := ns;
      }
      if ns > max {
        max := ns;
      }
      samples := samples + [ns];
    }

    method RecordCorrected(ns: nat, interval: nat)
      requires Valid() && ns < U64
      modifies this, counts
      ensures Valid() && samples == old(samples) + Backfill(ns, interval)
    {
      hide Valid;
      Record(ns);
      if interval == 0 || ns <= interval {
        return;
      }
      var missing := ns - interval;
      ghost var done := [ns];
      while missing >= interval
        invariant 0 <= missing < U64 && Valid() && samples == old(samples) + done
        invariant Backfill(ns, interval) == done + if missing < interval then [] else Backfill(missing, interval)
        decreases missing
      {
        Record(missing);
        done := done + [missing];
        missing := missing - interval;
      }
    }

    /** The bucket walk. It stops in the bucket of the sample whose rank p asks for, so
        no percentile up to 100 falls through to max. */
    method Percentile(p: real) returns (r: nat)
      requires Valid() && p >= 0.0
      ensures samples == [] ==> r == 0
      ensures forall x | samples != [] && IsRank(samples, Rank(p, |samples|), x) :: r == ValueAt(Index(x))
      ensures samples != [] && p <= 100.0 ==> exists x :: AtPercentile(samples, p, x) && r == ValueAt(Index(x))
      ensures samples != [] && p > 100.0 ==> r == max
    {
      hide Index, ValueAt, Rank;
      if total == 0 {
        return 0;
      }
      var target := Rank(p, total);
      PastTheEnd(p, total);
      if p <= 100.0 {
        RankBounds(p, p, total);
        ghost var x := RankExists(samples, target);
        RankMeans(samples, p, x);
      }
      var cum, i := 0, 0;
      CountZero(samples);
      while i < counts.Length
        invariant 0 <= i <= BUCKETS && cum == Count(samples, BelowBucket(i)) < target
      {
        CountNextBucket(samples, i);
        cum := cum + counts[i];
        if cum >= target {
          StopsAtRank(samples, target, i);
          CountImplies(samples, BelowBucket(i + 1), BelowBucket(i + 1));
          return ValueAt(i);
        }
        i := i + 1;
      }
      forall k | 0 <= k < |samples|
        ensures Holds(BelowBucket(BUCKETS), samples[k])
      {
        IndexBounds(samples[k]);
      }
      CountAll(samples, BelowBucket(BUCKETS));
      NoSuchRank(samples, target);
      return max;
    }

    /** Merging is recording the other's samples too. */
    method Merge(o: Histogram)
      requires Valid() && o.Valid() && o != this && o.counts != counts
      modifies this, counts
      ensures Valid() && samples == old(samples) + o.samples
      ensures o.Valid() && o.samples == old(o.samples)
    {
      hide Index, Holds, Count, IsMin, IsMax;
      MergedCounts(samples, o.samples);
      MergedExtremes(samples, o.samples, min, max, o.min, o.max);
      var i := 0;
      while i < o.counts.Length
        invariant 0 <= i <= BUCKETS && o.Valid()
        invariant forall b | 0 <= b < i :: counts[b] == old(counts[b]) + o.counts[b]
        invariant forall b | i <= b < BUCKETS :: counts[b] == old(counts[b])
        modifies counts
      {
        counts[i] := counts[i] + o.counts[i];
        i := i + 1;
      }
      total := total + o.total;
      if o.total > 0 {
        if o.min < min {
          min := o.min;
        }
        if o.max > max {
          max := o.max;
        }
      }
      samples := samples + o.samples;
    }
  }

  lemma {:induction false} CountZero(samples: seq<nat>)
    ensures Count(samples, BelowBucket(0)) == 0
  {
    if samples != [] {
      CountZero(samples[..|samples| - 1]);
    }
  }

  /** The first bucket at which the running count reaches the target is the bucket of
      every sample of that rank. */
  lemma StopsAtRank(samples: seq<nat>, target: nat, i: nat)
    requires InRange(samples) && Count(samples, BelowBucket(i)) < target <= Count(samples, BelowBucket(i + 1))
    ensures forall x | IsRank(samples, target, x) :: Index(x) == i
  {
    hide Index;
    forall x | IsRank(samples, target, x)
      ensures Index(x) == i
    {
      RankBucket(samples, target, x);
      if Index(x) < i {
        CountBelowMonotone(samples, Index(x) + 1, i);
      } else if i < Index(x) {
        CountBelowMonotone(samples, i + 1, Index(x));
      }
    }
  }

  lemma NoSuchRank(samples: seq<nat>, target: nat)
    requires target > |samples|
    ensures forall x :: !IsRank(samples, target, x)
  {
    forall x
      ensures !IsRank(samples, target, x)
    {
      CountImplies(samples, AtMost(x), AtMost(x));
    }
  }

  /** Two histograms of the same multiset of samples are the same histogram, so the
      order of records and merges does not matter. */
  lemma OrderIrrelevant(a: seq<nat>, b: seq<nat>, minA: nat, minB: nat, maxA: nat, maxB: nat)
    requires multiset(a) == multiset(b)
    requires IsMin(a, minA) && IsMin(b, minB) && IsMax(a, maxA) && IsMax(b, maxB)
    ensures |a| == |b| && minA == minB && maxA == maxB
    ensures forall i: nat :: Count(a, InBucket(i)) == Count(b, InBucket(i))
  {
    forall i: nat
      ensures Count(a, InBucket(i)) == Count(b, InBucket(i))
    {
      CountPermuted(a, b, InBucket(i));
    }
    assert |a| == |multiset(a)| == |b|;
    forall x: nat
      ensures x in a <==> x in b
    {
      assert x in a <==> x in multiset(a);
      assert x in b <==> x in multiset(b);
    }
  }

  /** A higher percentile never reports a lower value if every sample is below 2^63. */
  lemma PercentilesMonotone(samples: seq<nat>, p: real, q: real, x: nat, y: nat)
    requires samples != [] && forall i | 0 <= i < |samples| :: samples[i] < TOP
    requires 0.0 <= p <= q && IsRank(samples, Rank(p, |samples|), x) && IsRank(samples, Rank(q, |samples|), y)
    ensures x <= y && ValueAt(Index(x)) <= ValueAt(Index(y))
  {
    hide Index, ValueAt, Floor, Rank;
    RankBounds(p, q, |samples|);
    if y < x {
      CountImplies(samples, AtMost(y), Less(x));
    }
    ValueOrderIff(x, y);
  }

  /** The ranks of a sample that occurs are not empty. */
  lemma {:induction false} OwnRank(samples: seq<nat>, x: nat)
    requires x in samples
    ensures Count(samples, Less(x)) < Count(samples, AtMost(x)) <= |samples|
  {
    var n := |samples| - 1;
    if samples[n] != x {
      OwnRank(samples[..n], x);
    } else {
      CountImplies(samples[..n], Less(x), AtMost(x));
    }
  }

  /** No rank reports more than the maximum exactly when the maximum is below 128, or
      is at least 2^63 and far enough above every sample just under 2^63. */
  lemma AtMostMaxIff(samples: seq<nat>, max: nat)
    requires samples != [] && InRange(samples) && IsMax(samples, max)
    ensures (forall rank: nat, x | IsRank(samples, rank, x) :: ValueAt(Index(x)) <= max) <==>
            || max < SUB
            || (max >= TOP && forall x | x in samples && TOP / 2 <= x < TOP :: Floor(x) + TOP <= max)
  {
    hide Index, ValueAt, Floor, Count;
    forall x | x in samples
      ensures x < SUB ==> ValueAt(Index(x)) <= max
      ensures max >= TOP ==> (ValueAt(Index(x)) <= max <==> (TOP / 2 <= x < TOP ==> Floor(x) + TOP <= max))
    {
      ReportedAtMost(x, max);
    }
    RepresentativeIff(max);
    forall x | x in samples
      ensures IsRank(samples, Count(samples, AtMost(x)), x)
    {
      OwnRank(samples, x);
    }
    if max >= SUB && max < TOP {
      assert IsRank(samples, Count(samples, AtMost(max)), max);
    } else if max >= TOP && exists x :: x in samples && TOP / 2 <= x < TOP && Floor(x) + TOP > max {
      var x :| x in samples && TOP / 2 <= x < TOP && Floor(x) + TOP > max;
      assert IsRank(samples, Count(samples, AtMost(x)), x);
    }
  }

  /** Whether the value reported for one sample exceeds a bound the sample keeps. */
  lemma ReportedAtMost(x: nat, max: nat)
    requires x <= max < U64
    ensures max >= TOP ==> (ValueAt(Index(x)) <= max <==> (TOP / 2 <= x < TOP ==> Floor(x) + TOP <= max))
    ensures x < SUB ==> ValueAt(Index(x)) <= max
  {
    hide Index, ValueAt;
    RepresentativeIff(x);
    if SUB <= x < TOP {
      BelowTop(x);
    }
  }
}
