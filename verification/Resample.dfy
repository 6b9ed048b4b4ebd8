// What resampling means (dip.c): shrinking averages areas, enlarging interpolates linearly. Both are
// weighted means whose weights add up to the divisor, so that no output leaves the range of the input.

module Resample {
  import Basics

  // ----- Arithmetic -----

  lemma Times(a: int, n: int)
    ensures (n + 1) * a == n * a + a
  {
  }

  lemma Cancel(a: nat, m: int, n: int)
    requires a > 0 && m * a < n * a
    ensures m < n
  {
    if m >= n {
      Monotone(a, n, m);
    }
  }

  lemma Monotone(a: nat, m: int, n: int)
    requires m <= n
    ensures m * a <= n * a
  {
    assert n * a - m * a == (n - m) * a;
    Product(n - m, a);
  }

  lemma Product(x: int, y: int)
    requires x >= 0 && y >= 0
    ensures x * y >= 0
  {
  }

  /** Adding half the divisor before dividing keeps a mean between its bounds. */
  lemma RoundedMean(s: int, d: nat, lo: int, hi: int)
    requires d > 0 && d * lo <= s <= d * hi
    ensures lo <= (d / 2 + s) / d <= hi
  {
    var q := (d / 2 + s) / d;
    assert d * q <= d / 2 + s < d * q + d;
    if q < lo {
      Below(d, q, lo);
    }
    if q > hi {
      Below(d, hi, q);
    }
  }

  lemma Below(d: nat, m: int, n: int)
    requires m < n
    ensures d * m + d <= d * n
  {
    assert d * n - d * m == d * (n - m);
    AtLeast(d, n - m);
  }

  lemma AtLeast(d: nat, k: int)
    requires k >= 1
    ensures d * k >= d
  {
  }

  // ----- Weighted sums -----

  predicate Bounded(a: seq<int>, lo: int, hi: int) {
    forall j :: 0 <= j < |a| ==> lo <= a[j] <= hi
  }

  // ----- Shrinking -----

  /** Samples are stretches: input j is [j*ox, (j+1)*ox), output k is [k*ix, (k+1)*ix). This much they share. */
  function Overlap(ix: nat, ox: nat, j: int, k: int): nat {
    Basics.Max(0, Basics.Min((j + 1) * ox, (k + 1) * ix) - Basics.Max(j * ox, k * ix))
  }

  /** The sum of the first n inputs, each times what it shares with output k. */
  function Area(a: seq<int>, ix: nat, ox: nat, k: int, n: nat): int
    requires n <= |a|
  {
    if n == 0 then 0 else Area(a, ix, ox, k, n - 1) + Overlap(ix, ox, n - 1, k) * a[n - 1]
  }

  function ShrinkAt(a: seq<int>, ox: nat, k: int): int
    requires |a| > 0
  {
    (|a| / 2 + Area(a, |a|, ox, k, |a|)) / |a|
  }

  /** The part of [k*ix, (k+1)*ix) that lies below p. */
  function Cut(ix: nat, k: int, p: int): int {
    Basics.Max(k * ix, Basics.Min(p, (k + 1) * ix))
  }

  lemma OverlapCut(ix: nat, ox: nat, j: int, k: int)
    ensures Overlap(ix, ox, j, k) == Cut(ix, k, (j + 1) * ox) - Cut(ix, k, j * ox)
  {
    Times(ix, k);
    Times(ox, j);
  }

  function Weights(ix: nat, ox: nat, k: int, n: nat): int {
    if n == 0 then 0 else Weights(ix, ox, k, n - 1) + Overlap(ix, ox, n - 1, k)
  }

  lemma {:induction false} WeightsCut(ix: nat, ox: nat, k: int, n: nat)
    ensures Weights(ix, ox, k, n) == Cut(ix, k, n * ox) - Cut(ix, k, 0)
  {
    if n > 0 {
      WeightsCut(ix, ox, k, n - 1);
      OverlapCut(ix, ox, n - 1, k);
    }
  }

  /** Every output takes exactly ix parts of the input. */
  lemma {:induction false} WeightsSum(ix: nat, ox: nat, k: nat)
    requires k < ox
    ensures Weights(ix, ox, k, ix) == ix
  {
    WeightsCut(ix, ox, k, ix);
    Product(k, ix);
    Times(ix, k);
    Monotone(ix, k + 1, ox);
    assert ix * ox == ox * ix;
  }

  lemma {:induction false} AreaBounds(a: seq<int>, ix: nat, ox: nat, k: int, n: nat, lo: int, hi: int)
    requires n <= |a| && Bounded(a, lo, hi)
    ensures Weights(ix, ox, k, n) * lo <= Area(a, ix, ox, k, n) <= Weights(ix, ox, k, n) * hi
  {
    if n > 0 {
      AreaBounds(a, ix, ox, k, n - 1, lo, hi);
      WeightedBounds(Weights(ix, ox, k, n - 1), Overlap(ix, ox, n - 1, k), a[n - 1], lo, hi);
    }
  }

  lemma WeightedBounds(w: int, v: nat, x: int, lo: int, hi: int)
    requires lo <= x <= hi
    ensures (w + v) * lo <= w * lo + v * x && w * hi + v * x <= (w + v) * hi
  {
    Monotone(v, lo, x);
    Monotone(v, x, hi);
    assert (w + v) * lo == w * lo + v * lo && (w + v) * hi == w * hi + v * hi;
    assert v * x == x * v && v * lo == lo * v && v * hi == hi * v;
  }

  /** Shrinking never leaves the range of the input. */
  lemma ShrinkBounds(a: seq<int>, ox: nat, k: nat, lo: int, hi: int)
    requires |a| > 0 && k < ox && Bounded(a, lo, hi)
    ensures lo <= ShrinkAt(a, ox, k) <= hi
  {
    WeightsSum(|a|, ox, k);
    AreaBounds(a, |a|, ox, k, |a|, lo, hi);
    RoundedMean(Area(a, |a|, ox, k, |a|), |a|, lo, hi);
  }

  /** Inputs that end before output k or begin after it do not count. */
  lemma {:induction false} AreaBefore(a: seq<int>, ix: nat, ox: nat, k: int, n: nat)
    requires n <= |a| && n * ox <= k * ix
    ensures Area(a, ix, ox, k, n) == 0
  {
    if n > 0 {
      Times(ox, n - 1);
      AreaBefore(a, ix, ox, k, n - 1);
      assert Overlap(ix, ox, n - 1, k) == 0;
      assert 0 * a[n - 1] == 0;
    }
  }

  lemma {:induction false} AreaAfter(a: seq<int>, ix: nat, ox: nat, k: int, n: nat, m: nat)
    requires n <= m <= |a| && (k + 1) * ix <= n * ox
    ensures Area(a, ix, ox, k, m) == Area(a, ix, ox, k, n)
  {
    if n < m {
      AreaAfter(a, ix, ox, k, n, m - 1);
      Monotone(ox, n, m - 1);
      assert Overlap(ix, ox, m - 1, k) == 0;
      assert 0 * a[m - 1] == 0;
    }
  }

  // ----- Enlarging -----

  /** Input j stands at j*(ox-1), output k at k*(ix-1); nearer than ox-1 they count, the nearer the more. */
  function Tent(ix: nat, ox: nat, j: int, k: int): nat {
    Basics.Max(0, (ox - 1) - Basics.Max(k * (ix - 1) - j * (ox - 1), j * (ox - 1) - k * (ix - 1)))
  }

  function Blend(a: seq<int>, ix: nat, ox: nat, k: int, n: nat): int
    requires n <= |a|
  {
    if n == 0 then 0 else Blend(a, ix, ox, k, n - 1) + Tent(ix, ox, n - 1, k) * a[n - 1]
  }

  function EnlargeAt(a: seq<int>, ox: nat, k: int): int
    requires ox > 1
  {
    ((ox - 1) / 2 + Blend(a, |a|, ox, k, |a|)) / (ox - 1)
  }

  /** Only the two inputs around output k count, with weights that add up to ox-1. */
  lemma {:induction false} TwoNeighbours(a: seq<int>, ox: nat, j: nat, k: nat)
    requires ox > 1 && j + 1 < |a| && j * (ox - 1) <= k * (|a| - 1) <= (j + 1) * (ox - 1)
    ensures Blend(a, |a|, ox, k, |a|)
         == ((j + 1) * (ox - 1) - k * (|a| - 1)) * a[j] + (k * (|a| - 1) - j * (ox - 1)) * a[j + 1]
  {
    Times(ox - 1, j);
    BlendBefore(a, |a|, ox, k, j);
    BlendAfter(a, |a|, ox, k, j + 2, |a|);
    Times(ox - 1, j + 1);
  }

  lemma {:induction false} BlendBefore(a: seq<int>, ix: nat, ox: nat, k: int, n: nat)
    requires ox > 1 && ix >= 1 && n <= |a| && n * (ox - 1) <= k * (ix - 1)
    ensures Blend(a, ix, ox, k, n) == 0
  {
    if n > 0 {
      Times(ox - 1, n - 1);
      BlendBefore(a, ix, ox, k, n - 1);
      assert Tent(ix, ox, n - 1, k) == 0;
      assert 0 * a[n - 1] == 0;
    }
  }

  lemma {:induction false} BlendAfter(a: seq<int>, ix: nat, ox: nat, k: int, n: nat, m: nat)
    requires ox > 1 && ix >= 1 && 1 <= n <= m <= |a| && k * (ix - 1) <= (n - 1) * (ox - 1)
    ensures Blend(a, ix, ox, k, m) == Blend(a, ix, ox, k, n)
  {
    if n < m {
      BlendAfter(a, ix, ox, k, n, m - 1);
      Monotone(ox - 1, n, m - 1);
      Times(ox - 1, n - 1);
      assert Tent(ix, ox, m - 1, k) == 0;
      assert 0 * a[m - 1] == 0;
    }
  }

  /** Enlarging never leaves the range of the input. */
  lemma EnlargeBounds(a: seq<int>, ox: nat, j: nat, k: nat, lo: int, hi: int)
    requires ox > 1 && j + 1 < |a| && j * (ox - 1) <= k * (|a| - 1) <= (j + 1) * (ox - 1) && Bounded(a, lo, hi)
    ensures lo <= EnlargeAt(a, ox, k) <= hi
  {
    TwoNeighbours(a, ox, j, k);
    var v, w := (j + 1) * (ox - 1) - k * (|a| - 1), k * (|a| - 1) - j * (ox - 1);
    Times(ox - 1, j);
    assert v + w == ox - 1;
    TwoBounds(v, w, a[j], a[j + 1], lo, hi);
    RoundedMean(v * a[j] + w * a[j + 1], ox - 1, lo, hi);
  }

  lemma TwoBounds(v: nat, w: nat, x: int, y: int, lo: int, hi: int)
    requires lo <= x <= hi && lo <= y <= hi
    ensures (v + w) * lo <= v * x + w * y <= (v + w) * hi
  {
    Monotone(v, lo, x);
    Monotone(v, x, hi);
    Monotone(w, lo, y);
    Monotone(w, y, hi);
    assert (v + w) * lo == lo * v + lo * w && (v + w) * hi == hi * v + hi * w;
    assert v * x == x * v && w * y == y * w;
  }

  /** An output that stands on an input is that input; so both ends are exact. */
  lemma EnlargeExact(a: seq<int>, ox: nat, j: nat, k: nat)
    requires ox > 1 && |a| > 1 && j < |a| && k * (|a| - 1) == j * (ox - 1)
    ensures EnlargeAt(a, ox, k) == a[j]
  {
    Times(ox - 1, j);
    if j + 1 < |a| {
      TwoNeighbours(a, ox, j, k);
      assert 0 * a[j + 1] == 0;
    } else {
      Times(ox - 1, j - 1);
      TwoNeighbours(a, ox, j - 1, k);
      assert 0 * a[j - 1] == 0;
    }
    RoundedMean((ox - 1) * a[j], ox - 1, a[j], a[j]);
  }

  lemma EnlargeEnds(a: seq<int>, ox: nat)
    requires ox > 1 && |a| > 1
    ensures EnlargeAt(a, ox, 0) == a[0] && EnlargeAt(a, ox, ox - 1) == a[|a| - 1]
  {
    EnlargeExact(a, ox, 0, 0);
    assert (ox - 1) * (|a| - 1) == (|a| - 1) * (ox - 1);
    EnlargeExact(a, ox, |a| - 1, ox - 1);
  }

  /** Between which two inputs output k stands. */
  lemma {:induction false} Neighbours(ix: nat, ox: nat, k: nat, tries: nat) returns (j: nat)
    requires ox > 1 && ix > 1 && k < ox && tries < ix && k * (ix - 1) <= tries * (ox - 1)
    ensures j + 1 < ix && j * (ox - 1) <= k * (ix - 1) <= (j + 1) * (ox - 1)
  {
    if tries == 0 {
      j := 0;
      Product(k, ix - 1);
    } else if (tries - 1) * (ox - 1) <= k * (ix - 1) {
      j := tries - 1;
    } else {
      j := Neighbours(ix, ox, k, tries - 1);
    }
  }

  // ----- Both -----

  /** Sample k of a resampled to n samples. */
  function ScaledAt(a: seq<int>, n: nat, k: nat): int
    requires |a| > 0 && k < n
  {
    if |a| < n then EnlargeAt(a, n, k) else if |a| == n then a[k] else ShrinkAt(a, n, k)
  }

  lemma EnlargeOne(a: seq<int>, ox: nat, k: nat)
    requires |a| == 1 && ox > 1
    ensures EnlargeAt(a, ox, k) == a[0]
  {
    assert k * 0 == 0;
    assert Blend(a, 1, ox, k, 0) == 0;
    assert Tent(1, ox, 0, k) == ox - 1;
    RoundedMean((ox - 1) * a[0], ox - 1, a[0], a[0]);
  }

  lemma ScaledBounds(a: seq<int>, n: nat, k: nat, lo: int, hi: int)
    requires |a| > 0 && k < n && Bounded(a, lo, hi)
    ensures lo <= ScaledAt(a, n, k) <= hi
  {
    if |a| < n {
      if |a| == 1 {
        EnlargeOne(a, n, k);
      } else {
        Monotone(|a| - 1, k, n - 1);
        assert (n - 1) * (|a| - 1) == (|a| - 1) * (n - 1);
        var j := Neighbours(|a|, n, k, |a| - 1);
        EnlargeBounds(a, n, j, k, lo, hi);
      }
    } else if |a| > n {
      ShrinkBounds(a, n, k, lo, hi);
    }
  }
}
