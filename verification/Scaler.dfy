// The resampling loops (dip.c), line by line: rows for the vertical direction, columns for the horizontal
// one. Both directions together scale a grey picture.

module Scaler {
  import opened Resample

  type Line = seq<int>

  ghost predicate Even(lines: seq<Line>, n: nat) {
    forall j :: 0 <= j < |lines| ==> |lines[j]| == n
  }

  /** What the lines hold at position i. */
  function Sample(lines: seq<Line>, n: nat, i: nat): (a: seq<int>)
    requires (forall j :: 0 <= j < |lines| ==> |lines[j]| == n) && i < n
    ensures |a| == |lines| && forall j :: 0 <= j < |lines| ==> a[j] == lines[j][i]
  {
    seq(|lines|, j requires 0 <= j < |lines| => lines[j][i])
  }

  function ScaledLines(lines: seq<Line>, n: nat, o: nat): (r: seq<Line>)
    requires (forall j :: 0 <= j < |lines| ==> |lines[j]| == n) && |lines| > 0
    ensures |r| == o && forall k :: 0 <= k < o ==> |r[k]| == n
    ensures forall k, i :: 0 <= k < o && 0 <= i < n ==> r[k][i] == ScaledAt(Sample(lines, n, i), o, k)
  {
    seq(o, k requires 0 <= k < o => seq(n, i requires 0 <= i < n => ScaledAt(Sample(lines, n, i), o, k)))
  }

  lemma IsScaled(out: seq<Line>, lines: seq<Line>, n: nat, o: nat)
    requires Even(lines, n) && |lines| > 0 && |out| == o && Even(out, n)
    requires forall k, i :: 0 <= k < o && 0 <= i < n ==> out[k][i] == ScaledAt(Sample(lines, n, i), o, k)
    ensures out == ScaledLines(lines, n, o)
  {
    forall k | 0 <= k < o
      ensures out[k] == ScaledLines(lines, n, o)[k]
    {
    }
  }

  /** add_row_gray and add_col_gray (lines 185-218). */
  method AddLine(acc: array<int>, line: Line, weight: nat)
    requires acc.Length == |line|
    modifies acc
    ensures forall i :: 0 <= i < acc.Length ==> acc[i] == old(acc[i]) + weight * line[i]
  {
    var i := 0;
    while i < acc.Length
      invariant 0 <= i <= acc.Length
      invariant forall k :: 0 <= k < acc.Length ==> acc[k] == old(acc[k]) + if k < i then weight * line[k] else 0
    {
      acc[i] := acc[i] + weight * line[i];
      i := i + 1;
    }
  }

  /** emit_and_bias_row_gray and emit_and_bias_col_gray (lines 234-244 and 290-299). */
  method EmitAndBias(acc: array<int>, weight: nat) returns (out: Line)
    requires weight > 0
    modifies acc
    ensures |out| == acc.Length && forall i :: 0 <= i < acc.Length ==> out[i] == old(acc[i]) / weight && acc[i] == weight / 2
  {
    var half := weight / 2;
    out := [];
    var i := 0;
    while i < acc.Length
      invariant 0 <= i <= acc.Length == |old(acc[..])| && |out| == i
      invariant forall k :: 0 <= k < i ==> out[k] == old(acc[k]) / weight && acc[k] == half
      invariant forall k :: i <= k < acc.Length ==> acc[k] == old(acc[k])
    {
      out := out + [acc[i] / weight];
      acc[i] := half;
      i := i + 1;
    }
  }

  /** The accumulators hold half the divisor and the area of output k that the inputs before j cover. */
  ghost predicate Gathered(acc: seq<int>, lines: seq<Line>, n: nat, ox: nat, j: nat, k: nat) {
    && Even(lines, n) && |acc| == n && j <= |lines|
    && forall i :: 0 <= i < n ==> acc[i] == |lines| / 2 + Area(Sample(lines, n, i), |lines|, ox, k, j)
  }

  /** Input j and output k share something. */
  ghost predicate Meeting(ix: nat, ox: nat, j: nat, k: nat) {
    j < ix && k < ox && j * ox < (k + 1) * ix && k * ix < (j + 1) * ox
  }

  lemma NothingGathered(acc: seq<int>, lines: seq<Line>, n: nat, ox: nat, j: nat, k: nat)
    requires Even(lines, n) && |acc| == n && j <= |lines| && j * ox <= k * |lines|
    requires forall i :: 0 <= i < n ==> acc[i] == |lines| / 2
    ensures Gathered(acc, lines, n, ox, j, k)
  {
    forall i | 0 <= i < n
      ensures acc[i] == |lines| / 2 + Area(Sample(lines, n, i), |lines|, ox, k, j)
    {
      AreaBefore(Sample(lines, n, i), |lines|, ox, k, j);
    }
  }

  lemma GatheredAll(acc: seq<int>, lines: seq<Line>, n: nat, ox: nat, j: nat, k: nat, out: Line)
    requires Gathered(acc, lines, n, ox, j, k) && |lines| > 0 && (k + 1) * |lines| <= j * ox
    requires |out| == n && forall i :: 0 <= i < n ==> out[i] == acc[i] / |lines|
    ensures forall i :: 0 <= i < n ==> out[i] == ShrinkAt(Sample(lines, n, i), ox, k)
  {
    forall i | 0 <= i < n
      ensures out[i] == ShrinkAt(Sample(lines, n, i), ox, k)
    {
      AreaAfter(Sample(lines, n, i), |lines|, ox, k, j, |lines|);
    }
  }

  /** Where the walk goes from a pair that meets: on to the next input, the next output, or both. */
  lemma NextMeeting(ix: nat, ox: nat, j: nat, k: nat)
    requires Meeting(ix, ox, j, k)
    ensures (j + 1) * ox == j * ox + ox && (k + 1) * ix == k * ix + ix
    ensures (j + 1) * ox <= ix * ox && (k + 1) * ix <= ix * ox
    ensures (j + 1) * ox < (k + 1) * ix ==> Meeting(ix, ox, j + 1, k)
    ensures (k + 1) * ix < (j + 1) * ox && k + 1 < ox ==> Meeting(ix, ox, j, k + 1)
    ensures (j + 1) * ox == (k + 1) * ix && k + 1 < ox ==> Meeting(ix, ox, j + 1, k + 1)
    ensures k + 1 == ox ==> (k + 1) * ix == ix * ox && (j + 1) * ox <= ix * ox
  {
    Times(ox, j);
    Times(ix, k);
    Times(ox, j + 1);
    Times(ix, k + 1);
    Monotone(ix, k + 1, ox);
    Monotone(ox, j + 1, ix);
    assert ix * ox == ox * ix;
    if (j + 1) * ox < (k + 1) * ix {
      Cancel(ox, j + 1, ix);
    }
    if k + 1 < ox {
      Times(ix, k + 1);
      Monotone(ix, k + 2, ox);
      if (j + 1) * ox == (k + 1) * ix {
        Cancel(ox, j + 1, ix);
      }
    }
  }

  lemma GatherOne(acc: seq<int>, acc': seq<int>, lines: seq<Line>, n: nat, ox: nat, j: nat, k: nat)
    requires Gathered(acc, lines, n, ox, j, k) && j < |lines| && |acc'| == n
    requires forall i :: 0 <= i < n ==> acc'[i] == acc[i] + Overlap(|lines|, ox, j, k) * lines[j][i]
    ensures Gathered(acc', lines, n, ox, j + 1, k)
  {
    forall i | 0 <= i < n
      ensures acc'[i] == |lines| / 2 + Area(Sample(lines, n, i), |lines|, ox, k, j + 1)
    {
      assert Sample(lines, n, i)[j] == lines[j][i];
    }
  }

  /** The first outputs are done. */
  ghost predicate ShrunkSoFar(out: seq<Line>, lines: seq<Line>, n: nat, ox: nat) {
    && Even(lines, n) && |lines| > 0 && |out| <= ox && (forall k :: 0 <= k < |out| ==> |out[k]| == n)
    && forall k, i :: 0 <= k < |out| && 0 <= i < n ==> out[k][i] == ShrinkAt(Sample(lines, n, i), ox, k)
  }

  lemma Gather0(acc: seq<int>, lines: seq<Line>, n: nat, ox: nat)
    requires Even(lines, n) && |acc| == n && |lines| > 0 && forall i :: 0 <= i < n ==> acc[i] == |lines| / 2
    ensures Gathered(acc, lines, n, ox, 0, 0) && (ox > 0 ==> Meeting(|lines|, ox, 0, 0))
  {
    assert 0 * ox == 0 && 0 * |lines| == 0;
    NothingGathered(acc, lines, n, ox, 0, 0);
  }

  /** The next output is done once the inputs before j cover it; input j' is the first that reaches past it. */
  method EmitOutput(acc: array<int>, lines: seq<Line>, n: nat, ox: nat, ghost j: nat, ghost j': nat, out: seq<Line>) returns (out': seq<Line>)
    requires acc.Length == n && |lines| > 0 && |out| < ox && ShrunkSoFar(out, lines, n, ox)
    requires Gathered(acc[..], lines, n, ox, j, |out|) && (|out| + 1) * |lines| <= j * ox
    requires j' <= |lines| && j' * ox <= (|out| + 1) * |lines|
    modifies acc
    ensures |out'| == |out| + 1 && ShrunkSoFar(out', lines, n, ox) && Gathered(acc[..], lines, n, ox, j', |out| + 1)
  {
    ghost var full := acc[..];
    var line := EmitAndBias(acc, |lines|);
    GatheredAll(full, lines, n, ox, j, |out|, line);
    NothingGathered(acc[..], lines, n, ox, j', |out| + 1);
    out' := out + [line];
  }

  /** Adds the share of input j to output k, and emits the output if it ends here (lines 697-712). */
  method ShrinkStep(acc: array<int>, lines: seq<Line>, n: nat, ox: nat, j: nat, out: seq<Line>, inPos: nat, outPos: nat)
    returns (j': nat, out': seq<Line>, inPos': nat, outPos': nat)
    requires acc.Length == n && |lines| > 0 && Meeting(|lines|, ox, j, |out|) && inPos == j * ox && outPos == |out| * |lines|
    requires Gathered(acc[..], lines, n, ox, j, |out|) && ShrunkSoFar(out, lines, n, ox)
    modifies acc
    ensures inPos' == j' * ox && outPos' == |out'| * |lines| && j' <= |lines|
    ensures inPos' <= |lines| * ox && outPos' <= |lines| * ox
    ensures Gathered(acc[..], lines, n, ox, j', |out'|) && ShrunkSoFar(out', lines, n, ox)
    ensures |out'| < ox ==> Meeting(|lines|, ox, j', |out'|)
    ensures j <= j' && |out| <= |out'| && j + |out| < j' + |out'|
  {
    var ix := |lines|;
    ghost var k := |out|;
    NextMeeting(ix, ox, j, k);
    j', out', inPos', outPos' := j, out, inPos, outPos;
    var inBegin, inEnd, outEnd := inPos, inPos + ox, outPos + ix;
    // No position passes the total, which fits an int if the source could compute it.
    assert inEnd <= ix * ox && outEnd <= ix * ox;
    if inBegin < outPos {
      inBegin := outPos;
    }
    if inEnd > outEnd {
      inEnd := outEnd;
    }
    ghost var before := acc[..];
    AddLine(acc, lines[j], inEnd - inBegin);
    GatherOne(before, acc[..], lines, n, ox, j, k);
    inEnd := inPos + ox;
    if outEnd >= inEnd {
      inPos', j' := inEnd, j + 1;
    }
    if outEnd <= inEnd {
      out' := EmitOutput(acc, lines, n, ox, j + 1, j', out);
      outPos' := outPos + ix;
    } else {
      assert j' == j + 1;
    }
  }

  /** Shrinking (lines 440-489 and 668-719). */
  method Shrink(lines: seq<Line>, n: nat, ox: nat) returns (out: seq<Line>)
    requires Even(lines, n) && |lines| > ox
    ensures out == ScaledLines(lines, n, ox)
  {
    var ix := |lines|;
    var total := ix * ox;
    var acc := new int[n](_ => ix / 2);
    Gather0(acc[..], lines, n, ox);
    assert ix * ox == ox * ix;
    out := [];
    var outPos, inPos, j := 0, 0, 0;
    while outPos != total
      invariant 0 <= j <= ix && 0 <= inPos == j * ox && 0 <= outPos == |out| * ix && |out| <= ox
      invariant Gathered(acc[..], lines, n, ox, j, |out|) && ShrunkSoFar(out, lines, n, ox)
      invariant |out| < ox ==> Meeting(ix, ox, j, |out|)
      decreases (ix - j) + (ox - |out|)
    {
      j, out, inPos, outPos := ShrinkStep(acc, lines, n, ox, j, out, inPos, outPos);
    }
    if |out| < ox {
      Times(ix, |out|);
      Monotone(ix, |out| + 1, ox);
    }
    IsScaled(out, lines, n, ox);
  }

  // ----- Enlarging -----

  ghost predicate EnlargedSoFar(out: seq<Line>, lines: seq<Line>, n: nat, ox: nat) {
    && Even(lines, n) && ox > 1 && |out| <= ox && (forall k :: 0 <= k < |out| ==> |out[k]| == n)
    && forall k, i :: 0 <= k < |out| && 0 <= i < n ==> out[k][i] == EnlargeAt(Sample(lines, n, i), ox, k)
  }

  lemma Blended(lines: seq<Line>, n: nat, ox: nat, j: nat, k: nat, v: nat, w: nat, line: Line)
    requires Even(lines, n) && ox > 1 && j + 1 < |lines| && j * (ox - 1) <= k * (|lines| - 1) <= (j + 1) * (ox - 1)
    requires v == (j + 1) * (ox - 1) - k * (|lines| - 1) && w == k * (|lines| - 1) - j * (ox - 1)
    requires |line| == n
    requires forall i :: 0 <= i < n ==> line[i] == ((ox - 1) / 2 + v * lines[j][i] + w * lines[j + 1][i]) / (ox - 1)
    ensures forall i :: 0 <= i < n ==> line[i] == EnlargeAt(Sample(lines, n, i), ox, k)
  {
    forall i | 0 <= i < n
      ensures line[i] == EnlargeAt(Sample(lines, n, i), ox, k)
    {
      TwoNeighbours(Sample(lines, n, i), ox, j, k);
    }
  }

  lemma PositionsWithin(ix: nat, ox: nat, j: nat, k: nat)
    requires 1 < ix && 0 < ox && k < ox && j + 1 < ix
    ensures (k + 1) * (ix - 1) <= ix * ox && (j + 1) * (ox - 1) <= ix * ox
  {
    Monotone(ix - 1, k + 1, ox);
    Monotone(ox - 1, j + 1, ix);
    assert ox * (ix - 1) == ix * ox - ox && ix * (ox - 1) == ix * ox - ix;
  }

  /** The next output stands between the same inputs or the next two. */
  lemma NextNeighbours(ix: nat, ox: nat, j: nat, k: nat)
    requires 1 < ix < ox && k < ox && j + 1 < ix && j * (ox - 1) <= k * (ix - 1) <= (j + 1) * (ox - 1)
    ensures (k + 1) * (ix - 1) == k * (ix - 1) + (ix - 1) && (j + 1) * (ox - 1) == j * (ox - 1) + (ox - 1)
    ensures (k + 1) * (ix - 1) > (j + 1) * (ox - 1) ==> (k + 1) * (ix - 1) <= (j + 2) * (ox - 1)
    ensures (k + 1) * (ix - 1) > (j + 1) * (ox - 1) && (k + 1) * (ix - 1) <= (ix - 1) * (ox - 1) ==> j + 2 < ix
    ensures (k + 1) * (ix - 1) <= (ix - 1) * (ox - 1) <==> k + 1 < ox
    ensures (k + 1) * (ix - 1) <= ix * ox && (j + 1) * (ox - 1) <= ix * ox
  {
    PositionsWithin(ix, ox, j, k);
    Times(ix - 1, k);
    Times(ox - 1, j);
    Times(ox - 1, j + 1);
    assert (ix - 1) * (ox - 1) == (ox - 1) * (ix - 1);
    if (j + 1) * (ox - 1) < (ix - 1) * (ox - 1) {
      Cancel(ox - 1, j + 1, ix - 1);
    }
    if k + 1 < ox {
      Monotone(ix - 1, k + 1, ox - 1);
    } else {
      Times(ix - 1, ox - 1);
    }
  }

  /** One output line from its two neighbours (lines 354-360 and 587-593). */
  method EnlargeStep(acc: array<int>, lines: seq<Line>, n: nat, ox: nat, j: nat, ghost k: nat, inPos: nat, outPos: nat) returns (line: Line)
    requires acc.Length == n && Even(lines, n) && 1 < |lines| < ox && j + 1 < |lines| && k < ox
    requires inPos == j * (ox - 1) && outPos == k * (|lines| - 1) && inPos <= outPos <= (j + 1) * (ox - 1)
    requires forall i :: 0 <= i < n ==> acc[i] == (ox - 1) / 2
    modifies acc
    ensures forall i :: 0 <= i < n ==> acc[i] == (ox - 1) / 2
    ensures |line| == n && forall i :: 0 <= i < n ==> line[i] == EnlargeAt(Sample(lines, n, i), ox, k)
  {
    Times(ox - 1, j);
    PositionsWithin(|lines|, ox, j, k);
    var inEnd := inPos + (ox - 1);
    assert inEnd <= |lines| * ox;
    AddLine(acc, lines[j], inEnd - outPos);
    AddLine(acc, lines[j + 1], outPos - inPos);
    line := EmitAndBias(acc, ox - 1);
    Blended(lines, n, ox, j, k, inEnd - outPos, outPos - inPos, line);
  }

  method EnlargeMany(lines: seq<Line>, n: nat, ox: nat) returns (out: seq<Line>)
    requires Even(lines, n) && 1 < |lines| < ox
    ensures |out| == ox && EnlargedSoFar(out, lines, n, ox)
  {
    var ix := |lines|;
    var total := (ix - 1) * (ox - 1);
    var acc := new int[n](_ => (ox - 1) / 2);
    out := [];
    var outPos, inPos, j := 0, 0, 0;
    assert 0 * (ox - 1) == 0 && 0 * (ix - 1) == 0;
    Product(ix - 1, ox - 1);
    while outPos <= total
      invariant 0 <= j && 0 <= inPos == j * (ox - 1) && 0 <= outPos == |out| * (ix - 1) && EnlargedSoFar(out, lines, n, ox)
      invariant forall i :: 0 <= i < n ==> acc[i] == (ox - 1) / 2
      invariant outPos <= total <==> |out| < ox
      invariant outPos <= total ==> j + 1 < ix && inPos <= outPos <= (j + 1) * (ox - 1)
      decreases ox - |out|
    {
      NextNeighbours(ix, ox, j, |out|);
      var line := EnlargeStep(acc, lines, n, ox, j, |out|, inPos, outPos);
      out := out + [line];
      outPos := outPos + (ix - 1);
      assert outPos <= ix * ox;
      if outPos > inPos + (ox - 1) {
        inPos, j := inPos + (ox - 1), j + 1;
      }
    }
  }

  /** Enlarging (lines 324-375 and 554-606). A single line is copied. */
  method Enlarge(lines: seq<Line>, n: nat, ox: nat) returns (out: seq<Line>)
    requires Even(lines, n) && 0 < |lines| < ox
    ensures out == ScaledLines(lines, n, ox)
  {
    if |lines| == 1 {
      out := [];
      var k := 0;
      while k < ox
        invariant 0 <= k <= ox && |out| == k && forall m :: 0 <= m < k ==> out[m] == lines[0]
      {
        out := out + [lines[0]];
        k := k + 1;
      }
      forall m: nat, i: nat | m < ox && i < n
        ensures out[m][i] == ScaledAt(Sample(lines, n, i), ox, m)
      {
        EnlargeOne(Sample(lines, n, i), ox, m);
      }
    } else {
      out := EnlargeMany(lines, n, ox);
    }
    IsScaled(out, lines, n, ox);
  }

  method ScaleLines(lines: seq<Line>, n: nat, o: nat) returns (out: seq<Line>)
    requires Even(lines, n) && |lines| > 0
    ensures out == ScaledLines(lines, n, o)
  {
    if |lines| < o {
      out := Enlarge(lines, n, o);
    } else if |lines| == o {
      out := lines;
      IsScaled(out, lines, n, o);
    } else {
      out := Shrink(lines, n, o);
    }
  }

  // ----- Grey pictures -----

  function Transpose(p: seq<Line>, w: nat): (q: seq<Line>)
    requires forall y :: 0 <= y < |p| ==> |p[y]| == w
    ensures |q| == w && (forall x :: 0 <= x < w ==> |q[x]| == |p|)
    ensures forall x, y :: 0 <= x < w && 0 <= y < |p| ==> q[x][y] == p[y][x]
  {
    seq(w, x requires 0 <= x < w => seq(|p|, y requires 0 <= y < |p| => p[y][x]))
  }

  /** All pixels within bounds. */
  ghost predicate Within(p: seq<Line>, lo: int, hi: int) {
    forall y, x :: 0 <= y < |p| && 0 <= x < |p[y]| ==> lo <= p[y][x] <= hi
  }

  function ScaledVertically(p: seq<Line>, w: nat, oy: nat): (q: seq<Line>)
    requires (forall y :: 0 <= y < |p| ==> |p[y]| == w) && |p| > 0
    ensures |q| == oy && forall y :: 0 <= y < oy ==> |q[y]| == w
  {
    ScaledLines(p, w, oy)
  }

  function ScaledHorizontally(p: seq<Line>, w: nat, ox: nat): (q: seq<Line>)
    requires (forall y :: 0 <= y < |p| ==> |p[y]| == w) && w > 0
    ensures |q| == |p| && forall y :: 0 <= y < |q| ==> |q[y]| == ox
  {
    Transpose(ScaledLines(Transpose(p, w), |p|, ox), |p|)
  }

  function Blank(w: nat, h: nat): (q: seq<Line>)
    ensures |q| == h && (forall y :: 0 <= y < h ==> |q[y]| == w) && Within(q, 0, 0)
  {
    seq(h, y requires 0 <= y < h => seq(w, x requires 0 <= x < w => 0))
  }

  /** A picture of ix columns scaled to ox columns and oy rows. */
  function Scaled(p: seq<Line>, ix: nat, ox: nat, oy: nat): (q: seq<Line>)
    requires forall y :: 0 <= y < |p| ==> |p[y]| == ix
    ensures |q| == oy && forall y :: 0 <= y < oy ==> |q[y]| == ox
  {
    if ix == 0 || |p| == 0 then Blank(ox, oy)
    else if ix * oy < ox * |p| then
      ScaledHorizontally(ScaledVertically(p, ix, oy), ix, ox)
    else ScaledVertically(ScaledHorizontally(p, ix, ox), ox, oy)
  }

  lemma ScaledLinesWithin(lines: seq<Line>, n: nat, o: nat, lo: int, hi: int)
    requires Even(lines, n) && |lines| > 0 && Within(lines, lo, hi)
    ensures Within(ScaledLines(lines, n, o), lo, hi)
  {
    forall k: nat, i: nat | k < o && i < n
      ensures lo <= ScaledLines(lines, n, o)[k][i] <= hi
    {
      ScaledBounds(Sample(lines, n, i), o, k, lo, hi);
    }
  }

  lemma HorizontallyWithin(p: seq<Line>, w: nat, ox: nat, lo: int, hi: int)
    requires Even(p, w) && w > 0 && Within(p, lo, hi)
    ensures Within(ScaledHorizontally(p, w, ox), lo, hi)
  {
    ScaledLinesWithin(Transpose(p, w), |p|, ox, lo, hi);
  }

  /** Scaled up or down in either direction, a picture has no pixel darker or brighter than the darkest and
    * brightest it had: so grey values stay bytes, and a uniform picture stays uniform. */
  lemma ScaledWithin(p: seq<Line>, ix: nat, ox: nat, oy: nat, lo: int, hi: int)
    requires Even(p, ix) && Within(p, lo, hi) && ix > 0 && |p| > 0
    ensures Within(Scaled(p, ix, ox, oy), lo, hi)
  {
    if ix * oy < ox * |p| {
      ScaledLinesWithin(p, ix, oy, lo, hi);
      HorizontallyWithin(ScaledVertically(p, ix, oy), ix, ox, lo, hi);
    } else {
      HorizontallyWithin(p, ix, ox, lo, hi);
      ScaledLinesWithin(ScaledHorizontally(p, ix, ox), ox, oy, lo, hi);
    }
  }

  method ScaleHorizontal(p: seq<Line>, w: nat, ox: nat) returns (q: seq<Line>)
    requires Even(p, w) && w > 0
    ensures q == ScaledHorizontally(p, w, ox)
  {
    var columns := ScaleLines(Transpose(p, w), |p|, ox);
    q := Transpose(columns, |p|);
  }

  /** scale_gray (lines 782-801): the order of the two directions keeps the picture between them small. */
  method ScaleGray(p: seq<Line>, ix: nat, ox: nat, oy: nat) returns (q: seq<Line>)
    requires Even(p, ix)
    ensures q == Scaled(p, ix, ox, oy)
  {
    var iy := |p|;
    if ix == 0 || iy == 0 {
      q := Blank(ox, oy);
    } else if ix * oy < ox * iy {
      var between := ScaleLines(p, ix, oy);
      q := ScaleHorizontal(between, ix, ox);
    } else {
      var between := ScaleHorizontal(p, ix, ox);
      q := ScaleLines(between, ox, oy);
    }
  }
}
