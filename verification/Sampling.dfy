// What scaled samples and pictures are in terms of the samples themselves: a shrunk sample is the mean of
// the parts it covers, an enlarged one lies on the line between its two neighbours, and a size that is
// kept changes nothing.

module Sampling {
  import opened Basics
  import opened Resample
  import opened Scaler

  // ----- Shrinking -----

  /** Cut every sample into n parts: these are the parts from lo on, up to hi. */
  function PartsOf(a: seq<int>, n: nat, lo: nat, hi: nat): (s: seq<int>)
    requires n > 0 && lo <= hi <= |a| * n
    ensures |s| == hi - lo
  {
    seq(hi - lo, i requires 0 <= i < hi - lo => (InSample(a, n, lo + i); a[(lo + i) / n]))
  }

  lemma InSample(a: seq<int>, n: nat, p: nat)
    requires n > 0 && p < |a| * n
    ensures p / n < |a|
  {
    var q := p / n;
    assert p == q * n + p % n;
    if q >= |a| {
      Monotone(n, |a|, q);
    }
  }

  /** A shrunk sample is the mean, rounded to the nearest, of its share of all the parts: those from k * |a| to (k + 1) * |a|. */
  lemma {:induction false} ShrunkIsMean(a: seq<int>, n: nat, k: nat)
    requires k < n < |a|
    ensures 0 <= k * |a| <= (k + 1) * |a| <= |a| * n
    ensures ScaledAt(a, n, k) == (|a| / 2 + Sum(PartsOf(a, n, k * |a|, (k + 1) * |a|))) / |a|
  {
    var ix := |a|;
    Product(k, ix);
    Times(ix, k);
    Monotone(ix, k + 1, n);
    AreaIsParts(a, n, k, ix);
  }

  lemma {:induction false} AreaIsParts(a: seq<int>, n: nat, k: nat, m: nat)
    requires k < n && 0 < m <= |a| && 0 <= k * |a| <= (k + 1) * |a| <= |a| * n
    ensures k * |a| <= Cut(|a|, k, m * n) <= (k + 1) * |a|
    ensures Area(a, |a|, n, k, m) == Sum(PartsOf(a, n, k * |a|, Cut(|a|, k, m * n)))
  {
    var ix := |a|;
    Times(n, m - 1);
    Product(m - 1, n);
    var before := Cut(ix, k, (m - 1) * n);
    OverlapCut(ix, n, m - 1, k);
    if m == 1 {
      assert before == k * ix;
      assert PartsOf(a, n, k * ix, before) == [];
      assert Area(a, ix, n, k, 0) == 0;
    } else {
      AreaIsParts(a, n, k, m - 1);
    }
    SameSample(a, n, k * ix, before, Cut(ix, k, m * n), m - 1);
  }

  /** Parts of one sample are all alike. */
  lemma {:induction false} SameSample(a: seq<int>, n: nat, lo: nat, p: nat, q: nat, j: nat)
    requires n > 0 && j < |a| && lo <= p <= q <= |a| * n
    requires p < q ==> j * n <= p && q <= (j + 1) * n
    ensures Sum(PartsOf(a, n, lo, q)) == Sum(PartsOf(a, n, lo, p)) + (q - p) * a[j]
    decreases q
  {
    if p < q {
      SameSample(a, n, lo, p, q - 1, j);
      PartIn(n, q - 1, j);
      SumLast(PartsOf(a, n, lo, q));
      assert PartsOf(a, n, lo, q)[..q - 1 - lo] == PartsOf(a, n, lo, q - 1);
      Times(a[j], q - 1 - p);
    }
  }

  lemma PartIn(n: nat, p: nat, j: nat)
    requires n > 0 && j * n <= p < (j + 1) * n
    ensures p / n == j
  {
    var q := p / n;
    assert p == n * q + p % n;
    Times(n, j);
    if q < j {
      Monotone(n, q + 1, j);
      Times(n, q);
    } else if q > j {
      Monotone(n, j + 1, q);
    }
  }

  /** So it stays within the range of the samples it covers. */
  lemma {:induction false} ShrunkWithin(a: seq<int>, n: nat, k: nat, lo: int, hi: int)
    requires k < n < |a|
    requires forall j :: 0 <= j < |a| && j * n < (k + 1) * |a| && k * |a| < (j + 1) * n ==> lo <= a[j] <= hi
    ensures lo <= ScaledAt(a, n, k) <= hi
  {
    ShrunkIsMean(a, n, k);
    var s := PartsOf(a, n, k * |a|, (k + 1) * |a|);
    Times(|a|, k);
    forall i | 0 <= i < |s|
      ensures lo <= s[i] <= hi
    {
      var p := k * |a| + i;
      InSample(a, n, p);
      QuotientRest(p, n);
      Times(n, p / n);
    }
    SumBounds(s, lo, hi);
    RoundedMean(Sum(s), |a|, lo, hi);
  }

  lemma {:induction false} SumBounds(s: seq<int>, lo: int, hi: int)
    requires forall i :: 0 <= i < |s| ==> lo <= s[i] <= hi
    ensures |s| * lo <= Sum(s) <= |s| * hi
  {
    if s != [] {
      SumBounds(s[1..], lo, hi);
      Times(lo, |s| - 1);
      Times(hi, |s| - 1);
    }
  }

  // ----- Enlarging -----

  /** An enlarged sample lies where the line between its neighbours passes, rounded to the nearest. */
  lemma {:induction false} EnlargedIsLine(a: seq<int>, n: nat, k: nat)
    requires 0 < |a| < n && k < n
    ensures var j, r := k * (|a| - 1) / (n - 1), k * (|a| - 1) % (n - 1);
            && 0 <= j < |a| && (j + 1 == |a| ==> r == 0)
            && ScaledAt(a, n, k) == ((n - 1) / 2 + (n - 1 - r) * a[j] + r * a[if j + 1 < |a| then j + 1 else j]) / (n - 1)
  {
    var at := k * (|a| - 1);
    var j, r := at / (n - 1), at % (n - 1);
    Product(k, |a| - 1);
    QuotientRest(at, n - 1);
    Monotone(|a| - 1, k, n - 1);
    assert (n - 1) * (|a| - 1) == (|a| - 1) * (n - 1);
    LastStands(n - 1, j, r, |a| - 1);
    OnLine(a, n, k, j, r);
  }

  lemma QuotientRest(x: nat, d: nat)
    requires d > 0
    ensures 0 <= x / d && x == (x / d) * d + x % d
  {
  }

  lemma LastStands(d: nat, j: nat, r: nat, last: nat)
    requires d > 0 && j * d + r <= last * d
    ensures j <= last && (j == last ==> r == 0)
  {
    if j > last {
      Monotone(d, last + 1, j);
      Times(d, last);
    }
  }

  lemma {:induction false} OnLine(a: seq<int>, n: nat, k: nat, j: nat, r: nat)
    requires 0 < |a| < n && k < n && j < |a| && r < n - 1 && (j + 1 == |a| ==> r == 0)
    requires k * (|a| - 1) == j * (n - 1) + r
    ensures ScaledAt(a, n, k) == ((n - 1) / 2 + (n - 1 - r) * a[j] + r * a[if j + 1 < |a| then j + 1 else j]) / (n - 1)
  {
    if j + 1 < |a| {
      Times(n - 1, j);
      TwoNeighbours(a, n, j, k);
    } else {
      OnLast(a, n, k);
      assert 0 * a[j] == 0;
    }
  }

  lemma {:induction false} OnLast(a: seq<int>, n: nat, k: nat)
    requires 0 < |a| < n && k < n && k * (|a| - 1) == (|a| - 1) * (n - 1)
    ensures ScaledAt(a, n, k) == a[|a| - 1] == ((n - 1) / 2 + (n - 1) * a[|a| - 1]) / (n - 1)
  {
    if |a| == 1 {
      EnlargeOne(a, n, k);
    } else {
      EnlargeExact(a, n, |a| - 1, k);
    }
    RoundedMean((n - 1) * a[|a| - 1], n - 1, a[|a| - 1], a[|a| - 1]);
  }

  /** So it lies between its two neighbours. */
  lemma {:induction false} EnlargedBetween(a: seq<int>, n: nat, k: nat, j: nat)
    requires 1 < |a| < n && k < n && j + 1 < |a| && j * (n - 1) <= k * (|a| - 1) <= (j + 1) * (n - 1)
    ensures Min(a[j], a[j + 1]) <= ScaledAt(a, n, k) <= Max(a[j], a[j + 1])
  {
    var d, at := n - 1, k * (|a| - 1);
    var v, w := (j + 1) * d - at, at - j * d;
    Times(d, j);
    TwoNeighbours(a, n, j, k);
    TwoBounds(v, w, a[j], a[j + 1], Min(a[j], a[j + 1]), Max(a[j], a[j + 1]));
    RoundedMean(v * a[j] + w * a[j + 1], d, Min(a[j], a[j + 1]), Max(a[j], a[j + 1]));
  }

  // ----- Both -----

  /** Without a change of size nothing changes; the first and last sample of an enlargement are those of the input. */
  lemma EndsKept(a: seq<int>, n: nat)
    requires 0 < |a|
    ensures n == |a| ==> forall k :: 0 <= k < n ==> ScaledAt(a, n, k) == a[k]
    ensures n > |a| ==> ScaledAt(a, n, 0) == a[0] && ScaledAt(a, n, n - 1) == a[|a| - 1]
  {
    if n > |a| {
      if |a| == 1 {
        EnlargeOne(a, n, 0);
        EnlargeOne(a, n, n - 1);
      } else {
        EnlargeEnds(a, n);
      }
    }
  }

  // ----- Pictures -----

  function ColumnOf(p: seq<Line>, x: nat): (a: seq<int>)
    requires forall y :: 0 <= y < |p| ==> x < |p[y]|
    ensures |a| == |p| && forall y :: 0 <= y < |p| ==> a[y] == p[y][x]
  {
    seq(|p|, y requires 0 <= y < |p| => p[y][x])
  }

  lemma VerticalPixel(p: seq<Line>, w: nat, oy: nat, y: nat, x: nat)
    requires Even(p, w) && |p| > 0 && y < oy && x < w
    ensures ScaledVertically(p, w, oy)[y][x] == ScaledAt(ColumnOf(p, x), oy, y)
  {
    assert Sample(p, w, x) == ColumnOf(p, x);
  }

  lemma HorizontalPixel(p: seq<Line>, w: nat, ox: nat, y: nat, x: nat)
    requires Even(p, w) && w > 0 && y < |p| && x < ox
    ensures ScaledHorizontally(p, w, ox)[y][x] == ScaledAt(p[y], ox, x)
  {
    assert Sample(Transpose(p, w), |p|, y) == p[y];
  }

  /** A scaled picture is scaled along its rows and columns, in the order that keeps the picture between them small. */
  lemma {:induction false} ScaledPixel(p: seq<Line>, ix: nat, ox: nat, oy: nat, y: nat, x: nat)
    requires Even(p, ix) && ix > 0 && |p| > 0 && y < oy && x < ox
    ensures Scaled(p, ix, ox, oy)[y][x] ==
              if ix * oy < ox * |p| then ScaledAt(seq(ix, i requires 0 <= i < ix => ScaledAt(ColumnOf(p, i), oy, y)), ox, x)
              else ScaledAt(seq(|p|, j requires 0 <= j < |p| => ScaledAt(p[j], ox, x)), oy, y)
  {
    if ix * oy < ox * |p| {
      var q := ScaledVertically(p, ix, oy);
      HorizontalPixel(q, ix, ox, y, x);
      forall i | 0 <= i < ix
        ensures q[y][i] == ScaledAt(ColumnOf(p, i), oy, y)
      {
        VerticalPixel(p, ix, oy, y, i);
      }
      assert q[y] == seq(ix, i requires 0 <= i < ix => ScaledAt(ColumnOf(p, i), oy, y));
    } else {
      var q := ScaledHorizontally(p, ix, ox);
      VerticalPixel(q, ox, oy, y, x);
      forall j | 0 <= j < |p|
        ensures q[j][x] == ScaledAt(p[j], ox, x)
      {
        HorizontalPixel(p, ix, ox, j, x);
      }
      assert ColumnOf(q, x) == seq(|p|, j requires 0 <= j < |p| => ScaledAt(p[j], ox, x));
    }
  }

  /** A picture without pixels is black at any size. */
  lemma NothingScaled(p: seq<Line>, ix: nat, ox: nat, oy: nat, y: nat, x: nat)
    requires Even(p, ix) && (ix == 0 || p == []) && y < oy && x < ox
    ensures Scaled(p, ix, ox, oy)[y][x] == 0
  {
    assert Within(Scaled(p, ix, ox, oy), 0, 0);
  }

  /** A picture scaled to its own size is the same; one that keeps its height is scaled along its rows only, and so on. */
  lemma SizeKept(p: seq<Line>, ix: nat, ox: nat, oy: nat, y: nat, x: nat)
    requires Even(p, ix) && ix > 0 && |p| > 0 && y < oy && x < ox
    ensures oy == |p| ==> Scaled(p, ix, ox, oy)[y][x] == ScaledAt(p[y], ox, x)
    ensures ox == ix ==> Scaled(p, ix, ox, oy)[y][x] == ScaledAt(ColumnOf(p, x), oy, y)
    ensures ox == ix && oy == |p| ==> Scaled(p, ix, ox, oy)[y][x] == p[y][x]
  {
    ScaledPixel(p, ix, ox, oy, y, x);
    if oy == |p| {
      KeptHeight(p, ix, ox, y, x);
    }
    if ox == ix {
      KeptWidth(p, ix, oy, y, x);
    }
  }

  lemma KeptHeight(p: seq<Line>, ix: nat, ox: nat, y: nat, x: nat)
    requires Even(p, ix) && ix > 0 && y < |p| && x < ox
    ensures ScaledAt(seq(ix, i requires 0 <= i < ix => ScaledAt(ColumnOf(p, i), |p|, y)), ox, x) == ScaledAt(p[y], ox, x)
    ensures ScaledAt(seq(|p|, j requires 0 <= j < |p| => ScaledAt(p[j], ox, x)), |p|, y) == ScaledAt(p[y], ox, x)
  {
    assert seq(ix, i requires 0 <= i < ix => ScaledAt(ColumnOf(p, i), |p|, y)) == p[y];
  }

  lemma KeptWidth(p: seq<Line>, ix: nat, oy: nat, y: nat, x: nat)
    requires Even(p, ix) && |p| > 0 && y < oy && x < ix
    ensures ScaledAt(seq(ix, i requires 0 <= i < ix => ScaledAt(ColumnOf(p, i), oy, y)), ix, x) == ScaledAt(ColumnOf(p, x), oy, y)
    ensures ScaledAt(seq(|p|, j requires 0 <= j < |p| => ScaledAt(p[j], ix, x)), oy, y) == ScaledAt(ColumnOf(p, x), oy, y)
  {
    assert seq(|p|, j requires 0 <= j < |p| => ScaledAt(p[j], ix, x)) == ColumnOf(p, x);
  }
}
