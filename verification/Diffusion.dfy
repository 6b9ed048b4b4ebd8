// Error diffusion after Floyd and Steinberg, as a relation between a row, what is shown for it and what is
// left for the row below; and that dithering is the one thing that satisfies it.

module Diffusion {
  import opened Basics
  import opened Dither

  /**
   * A row `ins` with `above` added to it is shown as `out` and leaves `below`; e is every pixel's error. Of
   * an error a sixteenth, three and five sixteenths, in rounded sixteenths, go to the row below, and the
   * remaining seven to the right.
   */
  ghost predicate FloydSteinberg(t: Table, ins: seq<int>, above: seq<int>, out: seq<nat>, below: seq<int>, e: seq<int>) {
    && |above| == |out| == |below| == |e| == |ins|
    && (forall x :: 0 <= x < |ins| ==> Shown(t, ins, above, out, e, x))
    && (forall x :: 0 <= x < |ins| ==> below[x] == Left(e, x))
  }

  /** What the errors of a row leave below pixel x: three parts of the one to the right, five of its own, one of the left. */
  function Left(e: seq<int>, x: nat): int
    requires x < |e|
  {
    (if x + 1 < |e| then 3 * ((e[x + 1] + 8) / 16) else 0) + 5 * ((e[x] + 8) / 16) + (if x > 0 then (e[x - 1] + 8) / 16 else 0)
  }

  /** Pixel x shows the entry nearest to its value, and its error is what that entry misses. */
  ghost predicate Shown(t: Table, ins: seq<int>, above: seq<int>, out: seq<nat>, e: seq<int>, x: nat)
    requires |above| == |out| == |e| == |ins| && x < |ins|
  {
    var v := ins[x] + above[x] + if x == 0 then 0 else e[x - 1] - 9 * ((e[x - 1] + 8) / 16);
    && out[x] == t[if v < 0 then 0 else if v > 65535 then 65535 else v]
    && e[x] == v - out[x] % 65536
  }

  /** Sixteenths are rounded to the nearest, and all sixteen are given away. */
  lemma SharesRounded(e: int)
    ensures var q := (e + 8) / 16;
            -8 <= e - 16 * q < 8 && -72 <= 16 * (e - 9 * q) - 7 * e < 72 && (e - 9 * q) + 3 * q + 5 * q + q == e
  {
  }

  function Errors(t: Table, ins: seq<int>, above: seq<int>): (e: seq<int>)
    requires |above| == |ins|
    ensures |e| == |ins| && forall x :: 0 <= x < |ins| ==> e[x] == Err(t, Value(t, ins, above, x))
  {
    seq(|ins|, x requires 0 <= x < |ins| => Err(t, Value(t, ins, above, x)))
  }

  /** The equations by which rows are dithered satisfy the relation. */
  lemma RowDiffused(t: Table, ins: seq<int>, above: seq<int>)
    requires |above| == |ins|
    ensures FloydSteinberg(t, ins, above, RowOut(t, ins, above), RowDregs(t, ins, above), Errors(t, ins, above))
  {
    var out, e := RowOut(t, ins, above), Errors(t, ins, above);
    forall x | 0 <= x < |ins|
      ensures Shown(t, ins, above, out, e, x)
    {
      PixelShown(t, ins, above, x);
    }
    forall x | 0 <= x < |ins|
      ensures RowDregs(t, ins, above)[x] == Left(e, x)
    {
      LeftBelow(t, ins, above, e, x);
    }
  }

  lemma PixelShown(t: Table, ins: seq<int>, above: seq<int>, x: nat)
    requires |above| == |ins| && x < |ins|
    ensures Shown(t, ins, above, RowOut(t, ins, above), Errors(t, ins, above), x)
  {
    ValueStep(t, ins, above, x);
  }

  lemma {:induction false} ValueStep(t: Table, ins: seq<int>, above: seq<int>, x: nat)
    requires |above| == |ins| && x < |ins|
    ensures Value(t, ins, above, x) == ins[x] + above[x]
              + if x == 0 then 0 else (var e := Err(t, Value(t, ins, above, x - 1)); e - 9 * ((e + 8) / 16))
    ensures Q(t, ins, above, x) == (Err(t, Value(t, ins, above, x)) + 8) / 16
  {
    if x > 0 {
      assert Passed(t, ins, above, x - 1) == Err(t, Value(t, ins, above, x - 1)) - 9 * Q(t, ins, above, x - 1);
      assert Q(t, ins, above, x - 1) == Part(Err(t, Value(t, ins, above, x - 1)));
    }
  }

  lemma {:induction false} LeftBelow(t: Table, ins: seq<int>, above: seq<int>, e: seq<int>, x: nat)
    requires |above| == |ins| == |e| && x < |ins|
    requires forall k :: 0 <= k < |ins| ==> e[k] == Err(t, Value(t, ins, above, k))
    ensures RowDregs(t, ins, above)[x] == Left(e, x)
  {
    ValueStep(t, ins, above, x);
    if x > 0 {
      ValueStep(t, ins, above, x - 1);
    }
    if x + 1 < |ins| {
      ValueStep(t, ins, above, x + 1);
    }
  }

  lemma {:induction false} ErrorsUnique(t: Table, ins: seq<int>, above: seq<int>, out: seq<nat>, below: seq<int>, e: seq<int>, x: nat)
    requires FloydSteinberg(t, ins, above, out, below, e) && x < |ins|
    ensures e[x] == Err(t, Value(t, ins, above, x)) && out[x] == t[Clamp(Value(t, ins, above, x))]
  {
    if x > 0 {
      ErrorsUnique(t, ins, above, out, below, e, x - 1);
    }
    assert Shown(t, ins, above, out, e, x);
    ValueStep(t, ins, above, x);
  }

  /** And nothing else does. */
  lemma {:induction false} DiffusedUniquely(t: Table, ins: seq<int>, above: seq<int>, out: seq<nat>, below: seq<int>, e: seq<int>)
    requires FloydSteinberg(t, ins, above, out, below, e)
    ensures out == RowOut(t, ins, above) && below == RowDregs(t, ins, above)
  {
    forall x | 0 <= x < |ins|
      ensures e[x] == Err(t, Value(t, ins, above, x)) && out[x] == t[Clamp(Value(t, ins, above, x))]
    {
      ErrorsUnique(t, ins, above, out, below, e, x);
    }
    forall x | 0 <= x < |ins|
      ensures below[x] == RowDregs(t, ins, above)[x]
    {
      LeftBelow(t, ins, above, e, x);
    }
  }

  /** In an image every row is dithered with what the row above it leaves. */
  lemma {:induction false} ImageDiffused(t: Table, rows: seq<seq<int>>, d: seq<int>, y: nat)
    requires Wide(rows, |d|) && y < |rows|
    ensures Wide(rows[..y], |d|) && Wide(rows[..y + 1], |d|) && DitherRows(t, rows[..0], d).dregs == d
    ensures var above, below := DitherRows(t, rows[..y], d).dregs, DitherRows(t, rows[..y + 1], d).dregs;
            exists e :: FloydSteinberg(t, rows[y], above, DitherRows(t, rows, d).out[y], below, e)
  {
    var above := DitherRows(t, rows[..y], d).dregs;
    RowDiffused(t, rows[y], above);
    RowTaken(t, rows, d, y);
  }

  lemma {:induction false} RowTaken(t: Table, rows: seq<seq<int>>, d: seq<int>, y: nat)
    requires Wide(rows, |d|) && y < |rows|
    ensures Wide(rows[..y], |d|) && Wide(rows[..y + 1], |d|)
    ensures var above := DitherRows(t, rows[..y], d).dregs;
            && DitherRows(t, rows, d).out[y] == RowOut(t, rows[y], above)
            && DitherRows(t, rows[..y + 1], d).dregs == RowDregs(t, rows[y], above)
  {
    var above := DitherRows(t, rows[..y], d).dregs;
    OneMoreTaken(rows, y);
    Strips(t, rows[..y], [rows[y]], d);
    assert [rows[y]][1..] == [];
    assert rows == rows[..y] + rows[y..];
    Strips(t, rows[..y], rows[y..], d);
  }

  // ----- One pixel wide -----

  /** In a column each pixel shows the entry nearest to all the light that has come in and was not yet shown. */
  lemma {:induction false} ColumnShows(t: Table, ins: seq<int>, carry: int, y: nat)
    requires y < |ins|
    ensures var out := Column(t, ins, carry);
            var v := carry + Sum(ins[..y + 1]) - Sum(Lights(t, out)[..y]);
            out[y] == t[if v < 0 then 0 else if v > 65535 then 65535 else v]
    decreases y
  {
    var out := Column(t, ins, carry);
    var more := Err(t, carry + ins[0]);
    if y == 0 {
      SumPrefix(ins, 0);
    } else {
      ColumnShows(t, ins[1..], more, y - 1);
      SumCut(ins, y + 1);
      SumCut(Lights(t, out), y);
      assert out[1..] == Column(t, ins[1..], more);
      assert Lights(t, out)[1..] == Lights(t, Column(t, ins[1..], more));
      assert ins[1..y + 1] == ins[1..][..y] && Lights(t, out)[1..y] == Lights(t, out)[1..][..y - 1];
    }
  }

  lemma {:induction false} SumCut(s: seq<int>, n: nat)
    requires 1 <= n <= |s|
    ensures Sum(s[..n]) == s[0] + Sum(s[1..n])
  {
    assert s[..n][1..] == s[1..n];
  }

  /** What is left at the end is the light that came in and was not shown. */
  lemma {:induction false} ColumnConserves(t: Table, ins: seq<int>, carry: int)
    ensures Carry(t, ins, carry) == carry + Sum(ins) - Sum(Lights(t, Column(t, ins, carry)))
    decreases |ins|
  {
    if ins != [] {
      var out, more := Column(t, ins, carry), Err(t, carry + ins[0]);
      ColumnConserves(t, ins[1..], more);
      assert Lights(t, out) == [out[0] % DEPTH] + Lights(t, Column(t, ins[1..], more));
      SumCons(out[0] % DEPTH, Lights(t, Column(t, ins[1..], more)));
    }
  }
}
