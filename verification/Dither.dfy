// Error diffusion (dither.c), for one colour channel: the values every pixel receives, their bounds, the
// conservation of light, and when an image may be dithered strip by strip.

module Dither {
  import opened Basics

  const DEPTH := 65536

  /** For each value the light that is shown for it (low 16 bits) and what the pixel is made of (the rest). */
  type Table = t: seq<nat> | |t| == DEPTH witness seq(DEPTH, _ => 0)

  /** The number of the table's entry that is nearest to a value. */
  function Clamp(v: int): (c: nat)
    ensures c < DEPTH && (0 <= v < DEPTH ==> c == v)
    ensures v < 0 ==> c == 0
    ensures v >= DEPTH ==> c == 65535
  {
    if v < 0 then 0 else if v > 65535 then 65535 else v
  }

  function Light(t: Table, v: int): (l: nat)
    ensures l < DEPTH
  {
    t[Clamp(v)] % DEPTH
  }

  /** What is wanted minus what is shown. */
  function Err(t: Table, v: int): int {
    v - Light(t, v)
  }

  /** A sixteenth of the error, rounded. */
  function Part(e: int): int {
    (e + 8) / 16
  }

  // ----- One row of two or more pixels -----

  /** The value pixel x is to show: its input, the error from the row above and what its left neighbour passes on. */
  function Value(t: Table, ins: seq<int>, d: seq<int>, x: nat): int
    requires |d| == |ins| && x < |ins|
    decreases x, 0
  {
    d[x] + ins[x] + if x == 0 then 0 else Passed(t, ins, d, x - 1)
  }

  function Passed(t: Table, ins: seq<int>, d: seq<int>, x: nat): int
    requires |d| == |ins| && x < |ins|
    decreases x, 2
  {
    Err(t, Value(t, ins, d, x)) - 9 * Q(t, ins, d, x)
  }

  function Q(t: Table, ins: seq<int>, d: seq<int>, x: nat): int
    requires |d| == |ins| && x < |ins|
    decreases x, 1
  {
    Part(Err(t, Value(t, ins, d, x)))
  }

  /** What is handed down to the row below at column x. */
  function Handed(t: Table, ins: seq<int>, d: seq<int>, x: nat): int
    requires |d| == |ins| && x < |ins|
  {
    (if x > 0 then Q(t, ins, d, x - 1) else 0) + 5 * Q(t, ins, d, x) + if x + 1 < |ins| then 3 * Q(t, ins, d, x + 1) else 0
  }

  function RowOut(t: Table, ins: seq<int>, d: seq<int>): (o: seq<nat>)
    requires |d| == |ins|
    ensures |o| == |ins|
  {
    seq(|ins|, x requires 0 <= x < |ins| => t[Clamp(Value(t, ins, d, x))])
  }

  function RowDregs(t: Table, ins: seq<int>, d: seq<int>): (e: seq<int>)
    requires |d| == |ins|
    ensures |e| == |ins|
  {
    seq(|ins|, x requires 0 <= x < |ins| => Handed(t, ins, d, x))
  }

  // ----- Bounds -----

  /** The table is exact at both ends and nowhere off by more than 16m. */
  ghost predicate Close(t: Table, m: int) {
    && m >= 0 && t[0] % 65536 == 0 && t[65535] % 65536 == 65535
    && forall j :: 0 <= j < 65536 ==> -16 * m <= j - t[j] % 65536 <= 16 * m
  }

  predicate ErrorRange(e: int, m: int) {
    -16 * m - 1 <= e <= 16 * m
  }

  predicate DregRange(d: int, m: int) {
    -9 * m <= d <= 9 * m
  }

  /** A value that is off by an error in range has an error in range, and a part of at most m. */
  lemma ErrorKept(t: Table, m: int, v: int, carry: int, input: int)
    requires Close(t, m) && v == carry + input && ErrorRange(carry, m) && 0 <= input < DEPTH
    ensures ErrorRange(Err(t, v), m) && -m <= Part(Err(t, v)) <= m
    ensures -7 * m - 1 <= Err(t, v) - 9 * Part(Err(t, v)) <= 7 * m
  {
    if 0 <= v < DEPTH {
      assert Light(t, v) == t[v] % 65536;
    }
    PartOf(Err(t, v), m);
  }

  lemma PartOf(e: int, m: int)
    requires m >= 0 && ErrorRange(e, m)
    ensures -m <= Part(e) <= m
    ensures -7 * m - 1 <= e - 9 * Part(e) <= 7 * m
  {
    var q := Part(e);
    assert 16 * q <= e + 8 < 16 * q + 16;
    if q == m {
      assert e - 9 * q <= 7 * m;
    } else {
      assert q <= m - 1;
    }
  }

  /** Inputs are 16 bits wide, and what came from above is in range. */
  ghost predicate Tame(ins: seq<int>, d: seq<int>, m: int) {
    && |d| == |ins|
    && (forall x :: 0 <= x < |ins| ==> 0 <= ins[x] < DEPTH)
    && (forall x :: 0 <= x < |d| ==> DregRange(d[x], m))
  }

  /** In a row of any width: every carry into a pixel and every pixel's error stay in range. */
  lemma {:induction false} RowBounds(t: Table, ins: seq<int>, d: seq<int>, m: int, x: nat)
    requires Close(t, m) && Tame(ins, d, m) && x < |ins|
    ensures ErrorRange(Value(t, ins, d, x) - ins[x], m)
    ensures ErrorRange(Err(t, Value(t, ins, d, x)), m) && -m <= Q(t, ins, d, x) <= m
    ensures -7 * m - 1 <= Passed(t, ins, d, x) <= 7 * m
  {
    if x > 0 {
      RowBounds(t, ins, d, m, x - 1);
    }
    assert DregRange(d[x], m);
    ErrorKept(t, m, Value(t, ins, d, x), Value(t, ins, d, x) - ins[x], ins[x]);
  }

  /** And what is handed down is in range again, so the same holds for every later row. */
  lemma DregsKept(t: Table, ins: seq<int>, d: seq<int>, m: int)
    requires Close(t, m) && Tame(ins, d, m)
    ensures forall x :: 0 <= x < |ins| ==> DregRange(RowDregs(t, ins, d)[x], m)
  {
    forall x | 0 <= x < |ins|
      ensures DregRange(RowDregs(t, ins, d)[x], m)
    {
      RowBounds(t, ins, d, m, x);
      if x > 0 {
        RowBounds(t, ins, d, m, x - 1);
      }
      if x + 1 < |ins| {
        RowBounds(t, ins, d, m, x + 1);
      }
    }
  }

  // ----- Conservation of light -----

  function Lights(t: Table, out: seq<nat>): (l: seq<int>)
    ensures |l| == |out|
  {
    seq(|out|, x requires 0 <= x < |out| => out[x] % DEPTH)
  }

  /** What a row loses over its edges: the share of the first pixel's left-hand neighbour, and what the last pixel
    * would pass on to the right. */
  function EdgeLoss(t: Table, ins: seq<int>, d: seq<int>): int
    requires |d| == |ins| > 0
  {
    var last := |ins| - 1;
    3 * Q(t, ins, d, 0) + (Err(t, Value(t, ins, d, last)) - 8 * Q(t, ins, d, last))
  }

  function Parts(t: Table, ins: seq<int>, d: seq<int>, n: nat): (s: seq<int>)
    requires |d| == |ins| && n <= |ins|
    ensures |s| == n
  {
    seq(n, x requires 0 <= x < n => Q(t, ins, d, x))
  }

  lemma PartsSnoc(t: Table, ins: seq<int>, d: seq<int>, n: nat)
    requires |d| == |ins| && n < |ins|
    ensures Sum(Parts(t, ins, d, n + 1)) == Sum(Parts(t, ins, d, n)) + Q(t, ins, d, n)
  {
    SumLast(Parts(t, ins, d, n + 1));
    assert Parts(t, ins, d, n + 1)[..n] == Parts(t, ins, d, n);
  }

  /** Up to pixel x: inputs and old dregs are the light shown, what was handed down, and the error at x. */
  lemma {:induction false} LightSoFar(t: Table, ins: seq<int>, d: seq<int>, x: nat)
    requires |d| == |ins| && x < |ins|
    ensures Sum(ins[..x + 1]) + Sum(d[..x + 1])
         == Sum(Lights(t, RowOut(t, ins, d))[..x + 1]) + 9 * Sum(Parts(t, ins, d, x)) + Err(t, Value(t, ins, d, x))
  {
    var l := Lights(t, RowOut(t, ins, d));
    SumPrefix(ins, x);
    SumPrefix(d, x);
    SumPrefix(l, x);
    if x == 0 {
      assert Parts(t, ins, d, 0) == [];
      assert ins[..0] == [] && d[..0] == [] && l[..0] == [];
    } else {
      LightSoFar(t, ins, d, x - 1);
      PartsSnoc(t, ins, d, x - 1);
    }
  }

  /** All that is handed down, up to column x: the last column still lacks its right-hand share. */
  lemma {:induction false} HandedSoFar(t: Table, ins: seq<int>, d: seq<int>, x: nat)
    requires |d| == |ins| && x < |ins|
    ensures Sum(RowDregs(t, ins, d)[..x + 1])
         == 9 * Sum(Parts(t, ins, d, x + 1)) - 3 * Q(t, ins, d, 0) - Q(t, ins, d, x)
            + if x + 1 < |ins| then 3 * Q(t, ins, d, x + 1) else 0
  {
    var e := RowDregs(t, ins, d);
    SumPrefix(e, x);
    PartsSnoc(t, ins, d, x);
    if x == 0 {
      assert e[..0] == [] && Parts(t, ins, d, 0) == [];
    } else {
      HandedSoFar(t, ins, d, x - 1);
    }
  }

  /** No light is made or lost inside a row of two or more pixels. */
  lemma {:induction false} RowConserves(t: Table, ins: seq<int>, d: seq<int>)
    requires |d| == |ins| >= 2
    ensures Sum(ins) + Sum(d)
         == Sum(Lights(t, RowOut(t, ins, d))) + Sum(RowDregs(t, ins, d)) + EdgeLoss(t, ins, d)
  {
    var n := |ins|;
    LightSoFar(t, ins, d, n - 1);
    HandedSoFar(t, ins, d, n - 1);
    PartsSnoc(t, ins, d, n - 1);
    assert ins[..n] == ins && d[..n] == d && RowDregs(t, ins, d)[..n] == RowDregs(t, ins, d);
    assert Lights(t, RowOut(t, ins, d))[..n] == Lights(t, RowOut(t, ins, d));
  }

  // ----- Whole images -----

  datatype Image = Image(out: seq<seq<nat>>, dregs: seq<int>)

  predicate Wide(rows: seq<seq<int>>, width: nat) {
    forall y :: 0 <= y < |rows| ==> |rows[y]| == width
  }

  function DitherRows(t: Table, rows: seq<seq<int>>, d: seq<int>): (r: Image)
    requires forall y :: 0 <= y < |rows| ==> |rows[y]| == |d|
    ensures |r.dregs| == |d| && |r.out| == |rows|
    decreases |rows|
  {
    if rows == [] then Image([], d)
    else
      var r := DitherRows(t, rows[1..], RowDregs(t, rows[0], d));
      Image([RowOut(t, rows[0], d)] + r.out, r.dregs)
  }

  /** Consecutive strips, the second with what the first hands down, are the whole image. */
  lemma {:induction false} Strips(t: Table, a: seq<seq<int>>, b: seq<seq<int>>, d: seq<int>)
    requires Wide(a, |d|) && Wide(b, |d|)
    ensures DitherRows(t, a + b, d).out == DitherRows(t, a, d).out + DitherRows(t, b, DitherRows(t, a, d).dregs).out
    ensures DitherRows(t, a + b, d).dregs == DitherRows(t, b, DitherRows(t, a, d).dregs).dregs
    decreases |a|
  {
    if a == [] {
      assert a + b == b;
    } else {
      assert (a + b)[1..] == a[1..] + b;
      Strips(t, a[1..], b, RowDregs(t, a[0], d));
    }
  }

  function Total(rows: seq<seq<int>>): int {
    if rows == [] then 0 else Sum(rows[0]) + Total(rows[1..])
  }

  function TotalLight(t: Table, out: seq<seq<nat>>): int {
    if out == [] then 0 else Sum(Lights(t, out[0])) + TotalLight(t, out[1..])
  }

  function TotalLoss(t: Table, rows: seq<seq<int>>, d: seq<int>): int
    requires Wide(rows, |d|) && |d| > 0
    decreases |rows|
  {
    if rows == [] then 0 else EdgeLoss(t, rows[0], d) + TotalLoss(t, rows[1..], RowDregs(t, rows[0], d))
  }

  /** Over an image of any height, light is lost at the edges only. */
  lemma {:induction false} ImageConserves(t: Table, rows: seq<seq<int>>, d: seq<int>)
    requires Wide(rows, |d|) && |d| >= 2
    ensures Total(rows) + Sum(d)
         == TotalLight(t, DitherRows(t, rows, d).out) + Sum(DitherRows(t, rows, d).dregs) + TotalLoss(t, rows, d)
    decreases |rows|
  {
    if rows != [] {
      RowConserves(t, rows[0], d);
      ImageConserves(t, rows[1..], RowDregs(t, rows[0], d));
    }
  }

  /** Over an image of any size what is handed down stays in range, and the light lost grows with the height only. */
  lemma {:induction false} ImageBounds(t: Table, rows: seq<seq<int>>, d: seq<int>, m: int)
    requires Close(t, m) && Wide(rows, |d|)
    requires forall y :: 0 <= y < |rows| ==> Tame(rows[y], d, m)
    requires forall x :: 0 <= x < |d| ==> DregRange(d[x], m)
    ensures forall x :: 0 <= x < |d| ==> DregRange(DitherRows(t, rows, d).dregs[x], m)
    ensures |d| > 0 ==> -(11 * m + 8) * |rows| <= TotalLoss(t, rows, d) <= (11 * m + 8) * |rows|
    decreases |rows|
  {
    if rows != [] {
      FirstRowKept(t, rows, d, m);
      ImageBounds(t, rows[1..], RowDregs(t, rows[0], d), m);
      if |d| > 0 {
        EdgeLossBound(t, rows[0], d, m);
        Distribute(11 * m + 8, |rows| - 1);
      }
    }
  }

  /** What the first row hands down is in range for the others. */
  lemma {:induction false} FirstRowKept(t: Table, rows: seq<seq<int>>, d: seq<int>, m: int)
    requires Close(t, m) && Wide(rows, |d|) && rows != []
    requires forall y :: 0 <= y < |rows| ==> Tame(rows[y], d, m)
    ensures var e := RowDregs(t, rows[0], d);
            && (forall x :: 0 <= x < |d| ==> DregRange(e[x], m))
            && (forall y :: 0 <= y < |rows[1..]| ==> Tame(rows[1..][y], e, m))
  {
    var e := RowDregs(t, rows[0], d);
    DregsKept(t, rows[0], d, m);
    forall y | 1 <= y < |rows|
      ensures Tame(rows[y], e, m)
    {
      assert Tame(rows[y], d, m);
    }
  }

  /** In an image of any size every pixel's error and every carry into a pixel stay in range, in every row. */
  lemma {:induction false} ImageErrors(t: Table, rows: seq<seq<int>>, d: seq<int>, m: int, y: nat, x: nat)
    requires Close(t, m) && Wide(rows, |d|) && y < |rows| && x < |d|
    requires forall k :: 0 <= k < |rows| ==> Tame(rows[k], d, m)
    requires forall k :: 0 <= k < |d| ==> DregRange(d[k], m)
    ensures |rows[y]| == |d| && forall k :: 0 <= k < y ==> |rows[..y][k]| == |d|
    ensures var e := DitherRows(t, rows[..y], d).dregs;
            && DitherRows(t, rows, d).out[y] == RowOut(t, rows[y], e)
            && ErrorRange(Value(t, rows[y], e, x) - rows[y][x], m) && ErrorRange(Err(t, Value(t, rows[y], e, x)), m)
            && -m <= Q(t, rows[y], e, x) <= m && DregRange(e[x], m)
  {
    var e := DitherRows(t, rows[..y], d).dregs;
    ImageBounds(t, rows[..y], d, m);
    assert Tame(rows[y], d, m);
    RowBounds(t, rows[y], e, m, x);
    assert rows == rows[..y] + rows[y..];
    Strips(t, rows[..y], rows[y..], d);
  }

  lemma Distribute(a: int, n: int)
    ensures a * (n + 1) == a * n + a && (-a) * (n + 1) == (-a) * n - a
  {
  }

  lemma EdgeLossBound(t: Table, ins: seq<int>, d: seq<int>, m: int)
    requires Close(t, m) && Tame(ins, d, m) && |d| > 0
    ensures -(11 * m + 8) <= EdgeLoss(t, ins, d) <= 11 * m + 8
  {
    var last := |ins| - 1;
    RowBounds(t, ins, d, m, 0);
    RowBounds(t, ins, d, m, last);
    var e := Err(t, Value(t, ins, d, last));
    assert 16 * Part(e) <= e + 8 < 16 * Part(e) + 16;
  }

  // ----- Images one pixel wide -----

  /** A column: the whole error goes to the next pixel, and nothing is kept after the last. */
  function Column(t: Table, ins: seq<int>, carry: int): (out: seq<nat>)
    ensures |out| == |ins|
    decreases |ins|
  {
    if ins == [] then [] else [t[Clamp(carry + ins[0])]] + Column(t, ins[1..], Err(t, carry + ins[0]))
  }

  function Carry(t: Table, ins: seq<int>, carry: int): int
    decreases |ins|
  {
    if ins == [] then carry else Carry(t, ins[1..], Err(t, carry + ins[0]))
  }

  lemma {:induction false} ColumnConcat(t: Table, a: seq<int>, b: seq<int>, carry: int)
    ensures Column(t, a + b, carry) == Column(t, a, carry) + Column(t, b, Carry(t, a, carry))
    decreases |a|
  {
    if a == [] {
      assert a + b == b;
    } else {
      assert (a + b)[1..] == a[1..] + b;
      ColumnConcat(t, a[1..], b, Err(t, carry + a[0]));
    }
  }

  /** Moving by a fixed step from one end of the table to the other, some step changes what is shown. */
  lemma {:induction false} SomeStepShows(t: Table, carry: int, from: nat) returns (input: nat)
    requires carry != 0 && from < DEPTH
    requires t[from] != t[if carry > 0 then 65535 else 0]
    ensures input < DEPTH && t[Clamp(carry + input)] != t[Clamp(input)]
    decreases if carry > 0 then DEPTH - from else from
  {
    var next: nat := Clamp(carry + from);
    if t[next] != t[from] {
      input := from;
    } else {
      input := SomeStepShows(t, carry, next);
    }
  }

  /** One pixel wide, a cut into strips goes unnoticed exactly when the strip above left no error: the next strip
    * then comes out as in the whole image, whatever it holds. */
  lemma {:induction false} ColumnStrips(t: Table, a: seq<int>)
    requires t[0] != t[65535]
    ensures Carry(t, a, 0) == 0 <==> forall b: seq<int> :: Column(t, a + b, 0) == Column(t, a, 0) + Column(t, b, 0)
  {
    var carry := Carry(t, a, 0);
    if carry == 0 {
      forall b: seq<int>
        ensures Column(t, a + b, 0) == Column(t, a, 0) + Column(t, b, 0)
      {
        ColumnConcat(t, a, b, 0);
      }
    } else {
      var input := SomeStepShows(t, carry, if carry > 0 then 0 else 65535);
      var b: seq<int> := [input];
      ColumnConcat(t, a, b, 0);
      var n := |Column(t, a, 0)|;
      assert Column(t, a + b, 0)[n] == t[Clamp(carry + input)];
      assert (Column(t, a, 0) + Column(t, b, 0))[n] == t[Clamp(0 + input)];
    }
  }

  /** The error left in a column stays in range too. */
  lemma {:induction false} ColumnBounds(t: Table, ins: seq<int>, carry: int, m: int)
    requires Close(t, m) && ErrorRange(carry, m) && forall y :: 0 <= y < |ins| ==> 0 <= ins[y] < DEPTH
    ensures ErrorRange(Carry(t, ins, carry), m)
    decreases |ins|
  {
    if ins != [] {
      ErrorKept(t, m, carry + ins[0], carry, ins[0]);
      ColumnBounds(t, ins[1..], Err(t, carry + ins[0]), m);
    }
  }

  function Firsts(rows: seq<seq<int>>): (ins: seq<int>)
    requires Wide(rows, 1)
    ensures |ins| == |rows|
  {
    seq(|rows|, y requires 0 <= y < |rows| => rows[y][0])
  }

  function Singles(column: seq<nat>): (out: seq<seq<nat>>)
    ensures |out| == |column|
  {
    seq(|column|, y requires 0 <= y < |column| => [column[y]])
  }

  // ----- The loops -----

  /** The loops of dither.c over one table; `dregs` holds what is handed down from row to row. */
  class Ditherer {
    const table: Table

    constructor (table: Table)
      ensures this.table == table
    {
      this.table := table;
    }

    /** Where the row stands after pixel x (BODYL and BODYI, lines 194-258). */
    ghost predicate RowStands(ins: seq<int>, d: seq<int>, x: nat, e: seq<int>, r: int)
      requires |d| == |ins| && x + 1 < |ins|
    {
      && |e| == |d|
      && (forall k :: 0 <= k < x ==> e[k] == Handed(table, ins, d, k))
      && e[x] == (if x > 0 then Q(table, ins, d, x - 1) else 0) + 5 * Q(table, ins, d, x)
      && e[x + 1] == Q(table, ins, d, x)
      && (forall k :: x + 2 <= k < |d| ==> e[k] == d[k])
      && r == d[x + 1] + Passed(table, ins, d, x)
    }

    lemma InnerStands(ins: seq<int>, d: seq<int>, x: nat, e: seq<int>, r: int, q: int, e': seq<int>)
      requires |d| == |ins| && 1 <= x < |ins| - 1 && RowStands(ins, d, x - 1, e, r) && q == Q(table, ins, d, x)
      requires e' == e[x + 1 := q][x := e[x] + 5 * q][x - 1 := e[x - 1] + 3 * q]
      ensures RowStands(ins, d, x, e', d[x + 1] + Passed(table, ins, d, x))
    {
    }

    lemma LastStands(ins: seq<int>, d: seq<int>, x: nat, e: seq<int>, r: int, q: int, e': seq<int>)
      requires |d| == |ins| && 1 <= x == |ins| - 1 && RowStands(ins, d, x - 1, e, r) && q == Q(table, ins, d, x)
      requires e' == e[x - 1 := e[x - 1] + 3 * q][x := e[x] + 5 * q]
      ensures e' == RowDregs(table, ins, d)
    {
    }

    /** The leftmost pixel (BODYL, lines 239-248). */
    method BodyL(ins: seq<int>, dregs: array<int>, ghost d: seq<int>) returns (shown: nat, r: int)
      requires |ins| == dregs.Length >= 2 && d == dregs[..]
      modifies dregs
      ensures shown == table[Clamp(Value(table, ins, d, 0))] && RowStands(ins, d, 0, dregs[..], r)
    {
      r := dregs[0] + ins[0];
      shown := table[Clamp(r)];
      var rt := r - shown % DEPTH;
      r := dregs[1] + rt;
      rt := (rt + 8) / 16;
      r := r - 9 * rt;
      dregs[1] := rt;
      dregs[0] := 5 * rt;
    }

    /** A pixel between (BODYI, lines 250-258). */
    method BodyI(ins: seq<int>, dregs: array<int>, x: nat, r0: int, ghost d: seq<int>) returns (shown: nat, r: int)
      requires |ins| == dregs.Length == |d| && 1 <= x < |ins| - 1 && RowStands(ins, d, x - 1, dregs[..], r0)
      modifies dregs
      ensures shown == table[Clamp(Value(table, ins, d, x))] && RowStands(ins, d, x, dregs[..], r)
    {
      ghost var e := dregs[..];
      r := r0 + ins[x];
      assert r == Value(table, ins, d, x);
      shown := table[Clamp(r)];
      var rt := r - shown % DEPTH;
      r := dregs[x + 1] + rt;
      assert dregs[x + 1] == e[x + 1] == d[x + 1];
      rt := (rt + 8) / 16;
      r := r - 9 * rt;
      dregs[x + 1] := rt;
      dregs[x] := dregs[x] + 5 * rt;
      dregs[x - 1] := dregs[x - 1] + 3 * rt;
      InnerStands(ins, d, x, e, r0, rt, dregs[..]);
    }

    /** The rightmost pixel (BODYR, lines 216-230). */
    method BodyR(ins: seq<int>, dregs: array<int>, x: nat, r0: int, ghost d: seq<int>) returns (shown: nat)
      requires |ins| == dregs.Length == |d| && 1 <= x == |ins| - 1 && RowStands(ins, d, x - 1, dregs[..], r0)
      modifies dregs
      ensures shown == table[Clamp(Value(table, ins, d, x))] && dregs[..] == RowDregs(table, ins, d)
    {
      ghost var e := dregs[..];
      var r := r0 + ins[x];
      assert r == Value(table, ins, d, x);
      shown := table[Clamp(r)];
      var rt := (r - shown % DEPTH + 8) / 16;
      dregs[x - 1] := dregs[x - 1] + 3 * rt;
      dregs[x] := dregs[x] + 5 * rt;
      LastStands(ins, d, x, e, r0, rt, dregs[..]);
    }

    /** One row of at least two pixels (lines 283-289). */
    method DitherRow(ins: seq<int>, dregs: array<int>) returns (out: seq<nat>)
      requires |ins| == dregs.Length >= 2
      modifies dregs
      ensures out == RowOut(table, ins, old(dregs[..]))
      ensures dregs[..] == RowDregs(table, ins, old(dregs[..]))
    {
      ghost var d := dregs[..];
      ghost var goal := RowOut(table, ins, d);
      var shown, r := BodyL(ins, dregs, d);
      out := [shown];
      var x := 1;
      OneMoreTaken(goal, 0);
      while x < |ins| - 1
        invariant 1 <= x <= |ins| - 1 && RowStands(ins, d, x - 1, dregs[..], r)
        invariant out == goal[..x]
      {
        shown, r := BodyI(ins, dregs, x, r, d);
        OneMoreTaken(goal, x);
        out := out + [shown];
        x := x + 1;
      }
      shown := BodyR(ins, dregs, x, r, d);
      OneMoreTaken(goal, x);
      out := out + [shown];
    }

    /** A column of single pixels (lines 274-280): the error is carried on in a variable, not in dregs. */
    method DitherColumn(ins: seq<int>) returns (out: seq<nat>)
      ensures out == Column(table, ins, 0)
    {
      var r := 0;
      out := [];
      var y := 0;
      while y < |ins|
        invariant 0 <= y <= |ins|
        invariant Column(table, ins, 0) == out + Column(table, ins[y..], r)
      {
        r := r + ins[y];
        var shown := table[Clamp(r)];
        assert ins[y..][1..] == ins[y + 1..];
        out := out + [shown];
        r := r - shown % DEPTH;
        y := y + 1;
      }
    }

    /** The template's body for images of at least two columns. */
    method DitherWide(rows: seq<seq<int>>, dregs: array<int>) returns (out: seq<seq<nat>>)
      requires Wide(rows, dregs.Length) && dregs.Length >= 2
      modifies dregs
      ensures DitherRows(table, rows, old(dregs[..])) == Image(out, dregs[..])
    {
      ghost var whole := DitherRows(table, rows, dregs[..]);
      out := [];
      var y := 0;
      while y < |rows|
        invariant 0 <= y <= |rows|
        invariant whole.out == out + DitherRows(table, rows[y..], dregs[..]).out
        invariant whole.dregs == DitherRows(table, rows[y..], dregs[..]).dregs
      {
        assert rows[y..][1..] == rows[y + 1..];
        var line := DitherRow(rows[y], dregs);
        out := out + [line];
        y := y + 1;
      }
    }

    /** The whole template: nothing for no columns, and nothing handed down for one (lines 260-292). */
    method DitherFn(rows: seq<seq<int>>, dregs: array<int>) returns (out: seq<seq<nat>>)
      requires Wide(rows, dregs.Length)
      modifies dregs
      ensures dregs.Length == 0 ==> out == []
      ensures dregs.Length == 1 ==> dregs[..] == old(dregs[..]) && out == Singles(Column(table, Firsts(rows), 0))
      ensures dregs.Length >= 2 ==> DitherRows(table, rows, old(dregs[..])) == Image(out, dregs[..])
    {
      out := [];
      if dregs.Length == 1 {
        var column := DitherColumn(Firsts(rows));
        out := Singles(column);
      } else if dregs.Length >= 2 {
        out := DitherWide(rows, dregs);
      }
    }

    /** dither_start and then dither_restart on the next strip (lines 819-834) give the whole image. */
    method DitherTwoStrips(a: seq<seq<int>>, b: seq<seq<int>>, width: nat) returns (out: seq<seq<nat>>)
      requires Wide(a, width) && Wide(b, width) && width >= 2
      ensures out == DitherRows(table, a + b, seq(width, _ => 0)).out
    {
      var dregs := new int[width](_ => 0);
      ghost var zeros := seq(width, _ => 0);
      assert dregs[..] == zeros;
      var top := DitherWide(a, dregs);
      var bottom := DitherWide(b, dregs);
      Strips(table, a, b, zeros);
      out := top + bottom;
    }
  }
}
