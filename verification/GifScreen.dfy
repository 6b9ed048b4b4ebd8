// Where decoded pixels go (gif.c, output_pixel): rows are filled left to right, plainly or in the
// interlaced order of GIF89a Appendix E, where each finished row also stands in for those below it.

module GifScreen {
  import Basics

  type Rgb = int

  /** interlDist 1: plain; 24, 8, 4, 2: the four interlaced passes. */
  datatype Screen = Screen(width: nat, height: nat, palette: seq<Rgb>, rows: seq<seq<Rgb>>,
                           xoff: nat, yoff: nat, line: nat, interlDist: nat, ended: bool)

  /** Distance between rows of a pass. */
  function Skip(dist: nat): nat {
    if dist == 24 then 8 else dist
  }

  function NextPass(dist: nat): nat {
    if dist == 24 then 8 else dist / 2
  }

  /** How many rows a finished row stands in for, itself included. */
  function Spread(dist: nat): nat {
    NextPass(dist)
  }

  predicate Sized(s: Screen) {
    && s.width > 0 && s.height > 0
    && |s.rows| == s.height && (forall y :: 0 <= y < s.height ==> |s.rows[y]| == s.width)
    && s.interlDist in {1, 2, 4, 8, 24}
  }

  /** The next pixel has a place, and the pointer into the picture is at the current row. */
  predicate Ready(s: Screen) {
    Sized(s) && !s.ended && s.xoff < s.width && s.yoff < s.height && s.line == s.yoff
  }

  /** Rows lo..hi overwritten by a copy of row from. */
  function Smear(rows: seq<seq<Rgb>>, from: nat, lo: nat, hi: nat): (r: seq<seq<Rgb>>)
    requires from < |rows|
    ensures |r| == |rows|
    ensures forall y :: 0 <= y < |rows| ==> r[y] == if lo <= y < hi then rows[from] else rows[y]
  {
    seq(|rows|, y requires 0 <= y < |rows| => if lo <= y < hi then rows[from] else rows[y])
  }

  /** Moves on to later passes while the current one has no row left (lines 174-188). */
  function Settle(s: Screen): (t: Screen)
    decreases if s.yoff >= s.height then s.interlDist else 0
  {
    if s.yoff < s.height then s
    else if s.interlDist <= 2 then s.(ended := true)
    else
      var dist := NextPass(s.interlDist);
      Settle(s.(interlDist := dist, yoff := dist / 2, line := dist / 2))
  }

  /** A row is complete (lines 145-173). */
  function RowDone(s: Screen): Screen
    requires s.line < |s.rows|
  {
    var t := s.(xoff := 0);
    if s.interlDist == 1 then
      Settle(t.(yoff := s.yoff + 1, line := s.line + 1))
    else
      Settle(t.(rows := Smear(s.rows, s.line, s.yoff + 1, s.yoff + Spread(s.interlDist)),
                yoff := s.yoff + Skip(s.interlDist), line := s.line + Skip(s.interlDist)))
  }

  /** One pixel of colour index c. An index outside the palette ends the picture. */
  function Put(s: Screen, c: nat): (t: Screen)
    requires Ready(s)
  {
    if c >= |s.palette| then s.(ended := true)
    else
      var t := s.(rows := s.rows[s.line := s.rows[s.line][s.xoff := s.palette[c]]], xoff := s.xoff + 1);
      if t.xoff >= t.width then RowDone(t) else t
  }

  // ----- Which rows are final, and in which order they became so -----

  /** Row y has received its own pixels, when the pass `dist` has come to row yoff. */
  predicate Final(dist: nat, yoff: nat, y: nat) {
    match dist
    case 24 => y % 8 == 0 && y < yoff
    case 8 => y % 8 == 0 || (y % 8 == 4 && y < yoff)
    case 4 => y % 4 == 0 || (y % 4 == 2 && y < yoff)
    case 2 => y % 2 == 0 || y < yoff
    case _ => y < yoff
  }

  /** The final row that row y shows: the nearest one at or above it. */
  function Shows(dist: nat, yoff: nat, y: nat): (z: nat)
    ensures z <= y
  {
    match dist
    case 24 => y - y % 8
    case 8 => if y % 8 >= 4 && y - y % 8 + 4 < yoff then y - y % 8 + 4 else y - y % 8
    case 4 => if y % 4 >= 2 && y - y % 4 + 2 < yoff then y - y % 4 + 2 else y - y % 4
    case 2 => if y % 2 == 1 && y < yoff then y else y - y % 2
    case _ => y
  }

  /** Row y has something to show: only the plain order and the first pass leave rows blank. */
  predicate Painted(dist: nat, yoff: nat, y: nat) {
    (dist == 1 || dist == 24) ==> y < yoff
  }

  ghost predicate NearestFinal(dist: nat, yoff: nat, y: nat, z: nat) {
    && Final(dist, yoff, Shows(dist, yoff, y))
    && (Shows(dist, yoff, y) < z <= y ==> !Final(dist, yoff, z))
  }

  /** Shows is what its name says: final, and with no final row between it and y. */
  lemma ShowsNearest(dist: nat, yoff: nat, y: nat, z: nat)
    requires dist in {1, 2, 4, 8, 24} && OnGrid(dist, yoff) && Painted(dist, yoff, y)
    ensures NearestFinal(dist, yoff, y, z)
  {
    if dist == 24 {
      Nearest24(yoff, y, z);
    } else if dist == 8 {
      Nearest8(yoff, y, z);
    } else if dist == 4 {
      Nearest4(yoff, y, z);
    } else if dist == 2 {
      Nearest2(yoff, y, z);
    }
  }

  lemma Nearest24(yoff: nat, y: nat, z: nat)
    requires yoff % 8 == 0 && Painted(24, yoff, y)
    ensures NearestFinal(24, yoff, y, z)
  {
    var p, r := y / 8, z / 8;
    assert y == 8 * p + y % 8 && z == 8 * r + z % 8 && (8 * p) % 8 == 0;
    assert 8 * p < z <= y ==> r == p;
  }

  lemma Nearest8(yoff: nat, y: nat, z: nat)
    requires yoff % 8 == 4
    ensures NearestFinal(8, yoff, y, z)
  {
    var p, b := y / 8, y % 8;
    if b >= 4 && 8 * p + 4 < yoff {
      BetweenMultiples(8, 4, p, b, z);
    } else {
      BetweenMultiples(8, 0, p, b, z);
      if 8 * p < z <= y && z % 8 == 4 {
        assert z == 8 * p + 4;
      }
    }
  }

  lemma Nearest4(yoff: nat, y: nat, z: nat)
    requires yoff % 4 == 2
    ensures NearestFinal(4, yoff, y, z)
  {
    var p, b := y / 4, y % 4;
    if b >= 2 && 4 * p + 2 < yoff {
      BetweenMultiples(4, 2, p, b, z);
    } else {
      BetweenMultiples(4, 0, p, b, z);
      if 4 * p < z <= y && z % 4 == 2 {
        assert z == 4 * p + 2;
      }
    }
  }

  /** No row between d * p + a and d * p + b has the residue a or 0. */
  lemma BetweenMultiples(d: nat, a: nat, p: nat, b: nat, z: nat)
    requires d == 8 || d == 4
    requires a <= b < d
    ensures (d * p + a) % d == a
    ensures d * p + a < z <= d * p + b ==> z % d == z - d * p
  {
    if d == 8 {
      Residue8(p, a);
      if 8 * p + a < z <= 8 * p + b {
        Residue8(p, z - 8 * p);
      }
    } else {
      Residue4(p, a);
      if 4 * p + a < z <= 4 * p + b {
        Residue4(p, z - 4 * p);
      }
    }
  }

  lemma Residue8(p: nat, b: nat)
    requires b < 8
    ensures (8 * p + b) % 8 == b
  {
  }

  lemma Residue4(p: nat, b: nat)
    requires b < 4
    ensures (4 * p + b) % 4 == b
  {
  }

  lemma Nearest2(yoff: nat, y: nat, z: nat)
    requires yoff % 2 == 1 && Painted(2, yoff, y)
    ensures NearestFinal(2, yoff, y, z)
  {
    var p, r := y / 2, z / 2;
    assert y == 2 * p + y % 2 && z == 2 * r + z % 2 && (2 * p) % 2 == 0 && (2 * p + 1) % 2 == 1;
    assert 2 * p < z <= y ==> r == p;
  }

  /** The pass of GIF89a Appendix E a row belongs to. */
  function Pass(y: nat): nat {
    if y % 8 == 0 then 0 else if y % 8 == 4 then 1 else if y % 4 == 2 then 2 else 3
  }

  /** Interlaced rows come pass by pass, top to bottom within a pass; plain ones top to bottom. */
  predicate Before(interlaced: bool, a: nat, b: nat) {
    if interlaced then Pass(a) < Pass(b) || (Pass(a) == Pass(b) && a < b) else a < b
  }

  /** The current row is one of the rows of its pass. */
  predicate OnGrid(dist: nat, yoff: nat) {
    match dist
    case 24 => yoff % 8 == 0
    case 8 => yoff % 8 == 4
    case 4 => yoff % 4 == 2
    case 2 => yoff % 2 == 1
    case _ => true
  }

  /** The record of a picture in progress: rows finished so far, their pixels, and the row begun. */
  datatype Record = Record(order: seq<nat>, done: seq<seq<Rgb>>, cur: seq<Rgb>)

  /**
   * What holds after every pixel: the final rows are those on record, finished in the order of their
   * passes; none has changed since; and every other painted row shows the nearest final row above it.
   */
  ghost predicate Progress(s: Screen, r: Record) {
    && Sized(s) && OnGrid(s.interlDist, s.yoff) && s.line == s.yoff
    && |r.order| == |r.done| && |r.cur| == s.xoff < s.width
    && (s.yoff < s.height ==> s.rows[s.yoff][..s.xoff] == r.cur)
    && (s.xoff > 0 ==> s.yoff < s.height)
    && Finished(s, r) && Ordered(s, r.order) && Standing(s)
  }

  ghost predicate Finished(s: Screen, r: Record)
    requires |s.rows| == s.height && |r.order| == |r.done|
  {
    && (forall y :: 0 <= y < s.height && Final(s.interlDist, s.yoff, y) ==> y in r.order)
    && (forall i :: 0 <= i < |r.order| ==>
          && r.order[i] < s.height && Final(s.interlDist, s.yoff, r.order[i])
          && s.rows[r.order[i]] == r.done[i])
  }

  ghost predicate Ordered(s: Screen, order: seq<nat>) {
    && (forall i, j :: 0 <= i < j < |order| ==> Before(s.interlDist != 1, order[i], order[j]))
    && (s.yoff < s.height ==> forall i :: 0 <= i < |order| ==> Before(s.interlDist != 1, order[i], s.yoff))
  }

  ghost predicate Standing(s: Screen)
    requires |s.rows| == s.height
  {
    forall y :: 0 <= y < s.height && Painted(s.interlDist, s.yoff, y) && (y == s.yoff ==> s.xoff == 0) ==>
      s.rows[y] == s.rows[Shows(s.interlDist, s.yoff, y)]
  }

  /** A new picture with nothing drawn yet. */
  ghost predicate Fresh(s: Screen) {
    Sized(s) && s.xoff == s.yoff == s.line == 0 && s.interlDist in {1, 24} && !s.ended
  }

  lemma FreshProgress(s: Screen)
    requires Fresh(s)
    ensures Progress(s, Record([], [], []))
  {
  }

  /** When a pass has gone through, the next one starts from the same final rows. */
  lemma PassChange(dist: nat, yoff: nat, y: nat)
    requires dist in {4, 8, 24} && OnGrid(dist, yoff) && y < yoff
    ensures var next := NextPass(dist);
            && OnGrid(next, next / 2) && Painted(dist, yoff, y)
            && (Final(next, next / 2, y) <==> Final(dist, yoff, y))
            && Shows(next, next / 2, y) == Shows(dist, yoff, y)
            && (Final(next, next / 2, y) ==> Before(true, y, next / 2))
  {
    if dist == 24 {
      assert NextPass(dist) == 8;
    } else if dist == 8 {
      assert NextPass(dist) == 4 && yoff % 8 == 4;
    } else {
      assert NextPass(dist) == 2 && yoff % 4 == 2;
    }
  }

  /** Going on to the next pass changes nothing that is recorded. */
  lemma {:induction false} SettleProgress(s: Screen, r: Record)
    requires Progress(s, r) && s.xoff == 0 && !s.ended
    ensures Progress(Settle(s), r) && (Settle(s).ended <==> Settle(s).yoff >= s.height)
    ensures Settle(s).ended ==> Settle(s).interlDist <= 2
    ensures Settle(s).width == s.width && Settle(s).height == s.height && Settle(s).palette == s.palette
    ensures Settle(s).rows == s.rows && Settle(s).xoff == 0
    decreases if s.yoff >= s.height then s.interlDist else 0
  {
    if s.yoff >= s.height && s.interlDist > 2 {
      var dist := NextPass(s.interlDist);
      var t := s.(interlDist := dist, yoff := dist / 2, line := dist / 2);
      forall y | 0 <= y < s.height
        ensures Final(t.interlDist, t.yoff, y) <==> Final(s.interlDist, s.yoff, y)
        ensures Shows(t.interlDist, t.yoff, y) == Shows(s.interlDist, s.yoff, y)
        ensures Final(t.interlDist, t.yoff, y) ==> Before(true, y, t.yoff)
        ensures Painted(s.interlDist, s.yoff, y)
      {
        PassChange(s.interlDist, s.yoff, y);
      }
      assert t.yoff < t.height ==> t.rows[t.yoff][..0] == [];
      SettleProgress(t, r);
    }
  }

  /** What finishing row yoff does to the bookkeeping of any row y. */
  ghost predicate Advances(dist: nat, yoff: nat, y: nat) {
    var n := yoff + Skip(dist);
    && OnGrid(dist, n)
    && (Final(dist, n, y) <==> y == yoff || Final(dist, yoff, y))
    && (yoff < y < yoff + Spread(dist) ==> !Final(dist, yoff, y))
    && (dist != 1 && yoff <= y < yoff + Spread(dist) ==> Shows(dist, n, y) == yoff)
    && (Painted(dist, n, y) && y != yoff && !(yoff < y < yoff + Spread(dist)) ==>
          Painted(dist, yoff, y) && Shows(dist, n, y) == Shows(dist, yoff, y))
    && !(yoff < Shows(dist, n, y) < yoff + Spread(dist) && Painted(dist, n, y) && y >= yoff + Spread(dist))
  }

  lemma RowAdvance(dist: nat, yoff: nat, y: nat)
    requires dist in {1, 2, 4, 8, 24} && OnGrid(dist, yoff)
    ensures Advances(dist, yoff, y)
  {
    if dist == 24 {
      Advance24(yoff, y, yoff / 8, y / 8, y % 8);
    } else if dist == 8 {
      Advance8(yoff, y, yoff / 8, y / 8, y % 8);
    } else if dist == 4 {
      Advance4(yoff, y, yoff / 4, y / 4, y % 4);
    } else if dist == 2 {
      Advance2(yoff, y, yoff / 2, y / 2, y % 2);
    }
  }

  lemma Advance24(yoff: nat, y: nat, q: nat, p: nat, b: nat)
    requires yoff == 8 * q && y == 8 * p + b && b == y % 8 && (yoff + 8) % 8 == yoff % 8 == 0
    ensures Advances(24, yoff, y)
  {
  }

  lemma Advance8(yoff: nat, y: nat, q: nat, p: nat, b: nat)
    requires yoff == 8 * q + 4 && y == 8 * p + b && b == y % 8 && (yoff + 8) % 8 == yoff % 8 == 4
    ensures Advances(8, yoff, y)
  {
  }

  lemma Advance4(yoff: nat, y: nat, q: nat, p: nat, b: nat)
    requires yoff == 4 * q + 2 && y == 4 * p + b && b == y % 4 && (yoff + 4) % 4 == yoff % 4 == 2
    ensures Advances(4, yoff, y)
  {
  }

  lemma Advance2(yoff: nat, y: nat, q: nat, p: nat, b: nat)
    requires yoff == 2 * q + 1 && y == 2 * p + b && b == y % 2 && (yoff + 2) % 2 == yoff % 2 == 1
    ensures Advances(2, yoff, y)
  {
  }

  lemma NextRowLater(dist: nat, yoff: nat)
    requires dist in {1, 2, 4, 8, 24} && OnGrid(dist, yoff)
    ensures Before(dist != 1, yoff, yoff + Skip(dist))
  {
  }

  /** The picture after a row has been finished and copied, before later passes are looked at. */
  function Filled(s: Screen, row: seq<Rgb>): Screen
    requires s.yoff < |s.rows|
  {
    var rows := s.rows[s.yoff := row];
    var next := s.yoff + Skip(s.interlDist);
    s.(rows := if s.interlDist == 1 then rows else Smear(rows, s.yoff, s.yoff + 1, s.yoff + Spread(s.interlDist)),
       xoff := 0, yoff := next, line := next)
  }

  lemma FilledFinished(s: Screen, r: Record, row: seq<Rgb>)
    requires Progress(s, r) && Ready(s) && |row| == s.width
    ensures Finished(Filled(s, row), Record(r.order + [s.yoff], r.done + [row], []))
  {
    var t, n := Filled(s, row), |r.order|;
    var order, done := r.order + [s.yoff], r.done + [row];
    forall y | 0 <= y < s.height && Final(t.interlDist, t.yoff, y)
      ensures y in order
    {
      RowAdvance(s.interlDist, s.yoff, y);
      assert order[n] == s.yoff;
    }
    forall i | 0 <= i < |order|
      ensures order[i] < s.height && Final(t.interlDist, t.yoff, order[i]) && t.rows[order[i]] == done[i]
    {
      RowAdvance(s.interlDist, s.yoff, order[i]);
      if i < n {
        assert order[i] == r.order[i] && done[i] == r.done[i];
        assert Before(s.interlDist != 1, r.order[i], s.yoff);
      }
    }
  }

  lemma FilledOrdered(s: Screen, r: Record, row: seq<Rgb>)
    requires Ordered(s, r.order) && Ready(s) && OnGrid(s.interlDist, s.yoff)
    ensures Ordered(Filled(s, row), r.order + [s.yoff])
  {
    var order := r.order + [s.yoff];
    NextRowLater(s.interlDist, s.yoff);
    forall i, j | 0 <= i < j < |order|
      ensures Before(s.interlDist != 1, order[i], order[j])
    {
      assert order[i] == r.order[i];
    }
    forall i | 0 <= i < |order|
      ensures Before(s.interlDist != 1, order[i], s.yoff + Skip(s.interlDist))
    {
      if i < |r.order| {
        assert Before(s.interlDist != 1, r.order[i], s.yoff);
      }
    }
  }

  lemma FilledRow(s: Screen, row: seq<Rgb>, y: nat)
    requires Ready(s) && OnGrid(s.interlDist, s.yoff) && Standing(s) && |row| == s.width
    requires y < s.height && Painted(s.interlDist, Filled(s, row).yoff, y)
    ensures Filled(s, row).rows[y] == Filled(s, row).rows[Shows(s.interlDist, Filled(s, row).yoff, y)]
  {
    var z := Shows(s.interlDist, Filled(s, row).yoff, y);
    RowAdvance(s.interlDist, s.yoff, y);
    if y != s.yoff && !(s.yoff < y < s.yoff + Spread(s.interlDist)) {
      assert s.rows[y] == s.rows[z];
      ShownElsewhere(s.interlDist, s.yoff, y, z);
    }
  }

  /** What a row shows that the finished one does not touch is not touched either. */
  lemma ShownElsewhere(dist: nat, yoff: nat, y: nat, z: nat)
    requires dist in {1, 2, 4, 8, 24} && OnGrid(dist, yoff) && Painted(dist, yoff + Skip(dist), y)
    requires z == Shows(dist, yoff + Skip(dist), y) && y != yoff && !(yoff < y < yoff + Spread(dist))
    ensures z != yoff && !(yoff < z < yoff + Spread(dist))
  {
    RowAdvance(dist, yoff, y);
    ShowsNearest(dist, yoff, y, z);
    RowAdvance(dist, yoff, z);
    NotFinalYet(dist, yoff);
  }

  lemma NotFinalYet(dist: nat, yoff: nat)
    requires dist in {1, 2, 4, 8, 24} && OnGrid(dist, yoff)
    ensures !Final(dist, yoff, yoff)
  {
  }

  lemma FilledStanding(s: Screen, row: seq<Rgb>)
    requires Ready(s) && OnGrid(s.interlDist, s.yoff) && Standing(s) && |row| == s.width
    ensures Standing(Filled(s, row))
  {
    var t := Filled(s, row);
    forall y | 0 <= y < t.height && Painted(t.interlDist, t.yoff, y)
      ensures t.rows[y] == t.rows[Shows(t.interlDist, t.yoff, y)]
    {
      FilledRow(s, row, y);
    }
  }

  lemma FilledProgress(s: Screen, r: Record, row: seq<Rgb>)
    requires Progress(s, r) && Ready(s) && |row| == s.width
    ensures Progress(Filled(s, row), Record(r.order + [s.yoff], r.done + [row], []))
  {
    var t := Filled(s, row);
    FilledFinished(s, r, row);
    FilledOrdered(s, r, row);
    FilledStanding(s, row);
    RowAdvance(s.interlDist, s.yoff, 0);
    assert t.yoff < t.height ==> t.rows[t.yoff][..0] == [];
  }

  /** A finished row is recorded; its copies below hit no final row. */
  lemma RowDoneProgress(s: Screen, r: Record, row: seq<Rgb>)
    requires Progress(s, r) && Ready(s) && |row| == s.width
    ensures var u := RowDone(s.(rows := s.rows[s.yoff := row], xoff := s.width));
            && Progress(u, Record(r.order + [s.yoff], r.done + [row], []))
            && (u.ended <==> u.yoff >= s.height) && (u.ended ==> u.interlDist <= 2)
            && u.width == s.width && u.height == s.height && u.palette == s.palette
  {
    var t := Filled(s, row);
    assert RowDone(s.(rows := s.rows[s.yoff := row], xoff := s.width)) == Settle(t);
    FilledProgress(s, r, row);
    SettleProgress(t, Record(r.order + [s.yoff], r.done + [row], []));
  }

  /** One valid pixel: the record grows by it, and by a row when it completes one. */
  function Recorded(s: Screen, r: Record, px: Rgb): Record {
    if s.xoff + 1 < s.width then r.(cur := r.cur + [px])
    else Record(r.order + [s.yoff], r.done + [r.cur + [px]], [])
  }

  lemma PutProgress(s: Screen, r: Record, c: nat)
    requires Ready(s) && Progress(s, r) && c < |s.palette|
    ensures Progress(Put(s, c), Recorded(s, r, s.palette[c]))
    ensures Put(s, c).ended <==> Put(s, c).yoff >= s.height
    ensures Put(s, c).ended ==> Put(s, c).interlDist <= 2
    ensures Put(s, c).width == s.width && Put(s, c).height == s.height && Put(s, c).palette == s.palette
  {
    var px := s.palette[c];
    var row := s.rows[s.yoff][s.xoff := px];
    var t := s.(rows := s.rows[s.yoff := row], xoff := s.xoff + 1);
    assert row[..s.xoff + 1] == s.rows[s.yoff][..s.xoff] + [px];
    if t.xoff >= t.width {
      assert row == r.cur + [px];
      RowDoneProgress(s, r, row);
    } else {
      assert Standing(t);
      assert Finished(t, r.(cur := r.cur + [px]));
    }
  }

  // ----- Whole pictures -----

  /** Pixels are accepted until the picture ends. */
  function Feed(s: Screen, cs: seq<nat>): (t: Screen)
    requires s.ended || Ready(s)
    ensures t.ended || Ready(t)
    decreases |cs|
  {
    if cs == [] || s.ended then s else (PutReady(s, cs[0]); Feed(Put(s, cs[0]), cs[1..]))
  }

  /** After a pixel the picture is complete or ready for the next one. */
  lemma PutReady(s: Screen, c: nat)
    requires Ready(s)
    ensures Put(s, c).ended || Ready(Put(s, c))
  {
    if c < |s.palette| {
      var row := s.rows[s.line][s.xoff := s.palette[c]];
      var u := s.(rows := s.rows[s.line := row], xoff := s.xoff + 1);
      if u.xoff >= u.width {
        SettleReady(Filled(s, row));
        assert RowDone(u) == Settle(Filled(s, row));
      }
    }
  }

  lemma {:induction false} SettleReady(s: Screen)
    requires Sized(s) && s.xoff == 0 && s.line == s.yoff && !s.ended
    ensures Settle(s).ended || Ready(Settle(s))
    decreases if s.yoff >= s.height then s.interlDist else 0
  {
    if s.yoff >= s.height && s.interlDist > 2 {
      var dist := NextPass(s.interlDist);
      SettleReady(s.(interlDist := dist, yoff := dist / 2, line := dist / 2));
    }
  }

  lemma {:induction false} FeedConcat(s: Screen, a: seq<nat>, b: seq<nat>)
    requires s.ended || Ready(s)
    ensures Feed(s, a + b) == Feed(Feed(s, a), b)
    decreases |a|
  {
    if a == [] {
      assert a + b == b;
    } else if !s.ended {
      PutReady(s, a[0]);
      FeedConcat(Put(s, a[0]), a[1..], b);
      assert (a + b)[1..] == a[1..] + b;
    }
  }

  lemma {:induction false} FeedSnoc(s: Screen, cs: seq<nat>, n: nat)
    requires (s.ended || Ready(s)) && n < |cs| && !Feed(s, cs[..n]).ended
    ensures Feed(s, cs[..n + 1]) == Put(Feed(s, cs[..n]), cs[n])
  {
    assert cs[..n + 1] == cs[..n] + [cs[n]];
    FeedConcat(s, cs[..n], [cs[n]]);
    assert [cs[n]][1..] == [];
  }

  predicate InPalette(palette: seq<Rgb>, cs: seq<nat>) {
    forall i :: 0 <= i < |cs| ==> cs[i] < |palette|
  }

  function Colours(palette: seq<Rgb>, cs: seq<nat>): (px: seq<Rgb>)
    requires InPalette(palette, cs)
    ensures |px| == |cs| && forall i :: 0 <= i < |cs| ==> px[i] == palette[cs[i]]
  {
    seq(|cs|, i requires 0 <= i < |cs| => palette[cs[i]])
  }

  function Flat(rows: seq<seq<Rgb>>): seq<Rgb> {
    if rows == [] then [] else Flat(rows[..|rows| - 1]) + rows[|rows| - 1]
  }

  /** The recorded rows and the row begun are, end to end, the pixels delivered. */
  ghost predicate Delivered(r: Record, w: nat, px: seq<Rgb>) {
    && (forall k :: 0 <= k < |r.done| ==> |r.done[k]| == w)
    && Flat(r.done) + r.cur == px
  }

  lemma {:induction false} FlatRows(rows: seq<seq<Rgb>>, w: nat)
    requires forall k :: 0 <= k < |rows| ==> |rows[k]| == w
    ensures |Flat(rows)| == |rows| * w
  {
    if rows != [] {
      FlatRows(rows[..|rows| - 1], w);
      assert |rows| * w == (|rows| - 1) * w + w;
    }
  }

  lemma {:induction false} FlatRow(rows: seq<seq<Rgb>>, w: nat, k: nat)
    requires (forall j :: 0 <= j < |rows| ==> |rows[j]| == w) && k < |rows|
    ensures 0 <= k * w <= (k + 1) * w <= |Flat(rows)| && Flat(rows)[k * w..(k + 1) * w] == rows[k]
  {
    var n := |rows| - 1;
    FlatRows(rows, w);
    FlatRows(rows[..n], w);
    assert (k + 1) * w == k * w + w;
    if k < n {
      FlatRow(rows[..n], w, k);
      assert Flat(rows)[k * w..(k + 1) * w] == Flat(rows[..n])[k * w..(k + 1) * w];
    } else {
      var at := |Flat(rows[..n])|;
      assert at == k * w && Flat(rows)[at..at + w] == rows[n];
    }
  }

  lemma DeliverOne(s: Screen, r: Record, px: seq<Rgb>, c: Rgb)
    requires Delivered(r, s.width, px) && |r.cur| == s.xoff < s.width
    ensures Delivered(Recorded(s, r, c), s.width, px + [c])
  {
    if s.xoff + 1 == s.width {
      var done := r.done + [r.cur + [c]];
      assert done[..|r.done|] == r.done;
    }
  }

  /** The screen t has received the pixels px since it was s, and r is the record of that. */
  ghost predicate Holds(s: Screen, t: Screen, r: Record, px: seq<Rgb>) {
    && Progress(t, r) && Delivered(r, s.width, px)
    && (t.ended <==> t.yoff >= s.height) && (t.ended ==> t.interlDist <= 2)
    && (t.ended <==> |px| == s.width * s.height)
    && t.width == s.width && t.height == s.height && t.palette == s.palette
    && (s.interlDist == 1 <==> t.interlDist == 1)
  }

  /** Every picture: after any pixels that fit, all of them are where Appendix E puts them. */
  lemma {:induction false} PixelsPlaced(s: Screen, cs: seq<nat>) returns (r: Record)
    requires Fresh(s) && |cs| <= s.width * s.height && InPalette(s.palette, cs)
    ensures Holds(s, Feed(s, cs), r, Colours(s.palette, cs))
    decreases |cs|
  {
    if cs == [] {
      r := Record([], [], []);
      FreshProgress(s);
      assert s.width * s.height > 0;
    } else {
      var n := |cs| - 1;
      var r0 := PixelsPlaced(s, cs[..n]);
      FeedSnoc(s, cs, n);
      assert cs[..n + 1] == cs;
      r := PlaceOne(s, Feed(s, cs[..n]), r0, Colours(s.palette, cs[..n]), cs[n]);
      ColoursSnoc(s.palette, cs, n);
    }
  }

  lemma ColoursSnoc(palette: seq<Rgb>, cs: seq<nat>, n: nat)
    requires InPalette(palette, cs) && |cs| == n + 1
    ensures Colours(palette, cs) == Colours(palette, cs[..n]) + [palette[cs[n]]]
  {
  }

  lemma PlaceOne(s0: Screen, s: Screen, r0: Record, px: seq<Rgb>, c: nat) returns (r: Record)
    requires Holds(s0, s, r0, px) && |px| < s0.width * s0.height && c < |s0.palette|
    ensures Ready(s) && Holds(s0, Put(s, c), r, px + [s.palette[c]])
  {
    PutProgress(s, r0, c);
    r := Recorded(s, r0, s.palette[c]);
    DeliverOne(s, r0, px, s.palette[c]);
    RowsCounted(Put(s, c), r);
    FlatRows(r.done, s.width);
    FullCount(|r.done|, s.height, s.width, |r.cur|);
    PlainStaysPlain(s, c);
  }

  lemma PlainStaysPlain(s: Screen, c: nat)
    requires Ready(s)
    ensures s.interlDist == 1 <==> Put(s, c).interlDist == 1
  {
    if c < |s.palette| {
      var row := s.rows[s.line][s.xoff := s.palette[c]];
      var u := s.(rows := s.rows[s.line := row], xoff := s.xoff + 1);
      if u.xoff >= u.width {
        assert RowDone(u) == Settle(Filled(s, row));
        SettlePlain(Filled(s, row));
      }
    }
  }

  lemma {:induction false} SettlePlain(s: Screen)
    requires Sized(s)
    ensures s.interlDist == 1 <==> Settle(s).interlDist == 1
    decreases if s.yoff >= s.height then s.interlDist else 0
  {
    if s.yoff >= s.height && s.interlDist > 2 {
      var dist := NextPass(s.interlDist);
      SettlePlain(s.(interlDist := dist, yoff := dist / 2, line := dist / 2));
    }
  }

  /** All rows are on record exactly when the picture has ended. */
  lemma RowsCounted(s: Screen, r: Record)
    requires Progress(s, r) && (s.ended <==> s.yoff >= s.height) && (s.ended ==> s.interlDist <= 2)
    ensures |r.order| <= s.height
    ensures s.ended <==> |r.order| == s.height
  {
    DistinctBelow(r.order, s.height);
    if s.ended {
      forall y | 0 <= y < s.height
        ensures y in r.order
      {
        assert Final(s.interlDist, s.yoff, y);
      }
      AllBelow(r.order, s.height);
    } else {
      NotFinalYet(s.interlDist, s.yoff);
      assert s.yoff !in r.order;
      DistinctBelow(r.order + [s.yoff], s.height);
    }
  }

  lemma FullCount(rows: nat, height: nat, width: nat, rest: nat)
    requires rows <= height && rest < width && (rows == height ==> rest == 0)
    ensures rows * width + rest == width * height <==> rows == height
  {
    if rows < height {
      assert (rows + 1) * width <= height * width;
    }
  }

  lemma {:induction false} DistinctBelow(a: seq<nat>, h: nat)
    requires forall i :: 0 <= i < |a| ==> a[i] < h
    requires forall i, j :: 0 <= i < j < |a| ==> a[i] != a[j]
    ensures |a| <= h
  {
    if a != [] {
      assert a[0] < h;
      if exists i :: 0 <= i < |a| && a[i] == h - 1 {
        var i :| 0 <= i < |a| && a[i] == h - 1;
        DistinctWithout(a, i);
        DistinctBelow(Basics.Without(a, i), h - 1);
      } else {
        DistinctBelow(a, h - 1);
      }
    }
  }

  lemma {:induction false} DistinctWithout(a: seq<nat>, i: nat)
    requires i < |a| && forall j, k :: 0 <= j < k < |a| ==> a[j] != a[k]
    requires forall j :: 0 <= j < |a| ==> a[j] <= a[i]
    ensures var b := Basics.Without(a, i);
            && (forall j :: 0 <= j < |b| ==> b[j] < a[i])
            && (forall j, k :: 0 <= j < k < |b| ==> b[j] != b[k])
  {
  }

  lemma {:induction false} AllBelow(a: seq<nat>, h: nat)
    requires forall y :: 0 <= y < h ==> y in a
    ensures |a| >= h
  {
    if h > 0 {
      assert h - 1 in a;
      var i :| 0 <= i < |a| && a[i] == h - 1;
      forall y | 0 <= y < h - 1
        ensures y in Basics.Without(a, i)
      {
        StillThere(a, i, y);
      }
      AllBelow(Basics.Without(a, i), h - 1);
    }
  }

  lemma {:induction false} StillThere(a: seq<nat>, i: nat, y: nat)
    requires i < |a| && y in a && y != a[i]
    ensures y in Basics.Without(a, i)
  {
    var j :| 0 <= j < |a| && a[j] == y;
    assert Basics.Without(a, i)[if j < i then j else j - 1] == y;
  }

  /** When the turn of row y comes: how many of the first h rows are filled before it. */
  function Turn(interlaced: bool, h: nat, y: nat): (k: nat)
    ensures k <= h && (y < h ==> k < h)
  {
    if h == 0 then 0 else Turn(interlaced, h - 1, y) + if Before(interlaced, h - 1, y) then 1 else 0
  }

  lemma BeforeTransitive(interlaced: bool, a: nat, b: nat, c: nat)
    requires Before(interlaced, a, b) && Before(interlaced, b, c)
    ensures Before(interlaced, a, c)
  {
  }

  lemma {:induction false} TurnsGrow(interlaced: bool, h: nat, a: nat, b: nat)
    requires Before(interlaced, a, b)
    ensures Turn(interlaced, h, a) <= Turn(interlaced, h, b)
    ensures a < h ==> Turn(interlaced, h, a) < Turn(interlaced, h, b)
  {
    if h > 0 {
      TurnsGrow(interlaced, h - 1, a, b);
      if Before(interlaced, h - 1, a) {
        BeforeTransitive(interlaced, h - 1, a, b);
      }
    }
  }

  /** Turns number the rows from 0 to h - 1 in the order in which they are filled. */
  lemma {:induction false} TurnsInOrder(interlaced: bool, h: nat, a: nat, b: nat)
    requires a < h && b < h
    ensures Turn(interlaced, h, a) < h
    ensures Before(interlaced, a, b) <==> Turn(interlaced, h, a) < Turn(interlaced, h, b)
    ensures a == b <==> Turn(interlaced, h, a) == Turn(interlaced, h, b)
  {
    if Before(interlaced, a, b) {
      TurnsGrow(interlaced, h, a, b);
    } else if Before(interlaced, b, a) {
      TurnsGrow(interlaced, h, b, a);
    }
  }

  /** The row filled as the k-th of all has turn k. */
  lemma {:induction false} TurnIsPosition(interlaced: bool, h: nat, order: seq<nat>, k: nat)
    requires |order| == h && k < h
    requires forall i :: 0 <= i < |order| ==> order[i] < h
    requires forall i, j :: 0 <= i < j < |order| ==> Before(interlaced, order[i], order[j])
    ensures Turn(interlaced, h, order[k]) == k
  {
    TurnAtLeast(interlaced, h, order, k);
    TurnAtMost(interlaced, h, order, k);
  }

  lemma {:induction false} TurnAtLeast(interlaced: bool, h: nat, order: seq<nat>, k: nat)
    requires |order| == h && k < h
    requires forall i :: 0 <= i < |order| ==> order[i] < h
    requires forall i, j :: 0 <= i < j < |order| ==> Before(interlaced, order[i], order[j])
    ensures Turn(interlaced, h, order[k]) >= k
  {
    if k > 0 {
      TurnAtLeast(interlaced, h, order, k - 1);
      TurnsInOrder(interlaced, h, order[k - 1], order[k]);
    }
  }

  lemma {:induction false} TurnAtMost(interlaced: bool, h: nat, order: seq<nat>, k: nat)
    requires |order| == h && k < h
    requires forall i :: 0 <= i < |order| ==> order[i] < h
    requires forall i, j :: 0 <= i < j < |order| ==> Before(interlaced, order[i], order[j])
    ensures Turn(interlaced, h, order[k]) <= k
    decreases h - k
  {
    if k + 1 < h {
      TurnAtMost(interlaced, h, order, k + 1);
      TurnsInOrder(interlaced, h, order[k], order[k + 1]);
    } else {
      TurnsInOrder(interlaced, h, order[k], order[k]);
    }
  }

  /** Row y of t holds the run of pixels that its turn assigns to it. */
  ghost predicate HoldsRun(interlaced: bool, t: Screen, y: nat, px: seq<Rgb>) {
    var k := Turn(interlaced, t.height, y);
    && y < |t.rows| && 0 <= k * t.width <= (k + 1) * t.width <= |px|
    && t.rows[y] == px[k * t.width..(k + 1) * t.width]
  }

  /** A complete picture: each row holds the run of pixels whose turn it was. */
  lemma {:induction false} CompletePicture(s: Screen, cs: seq<nat>, y: nat)
    requires Fresh(s) && |cs| == s.width * s.height && InPalette(s.palette, cs)
    requires y < s.height
    ensures var t := Feed(s, cs);
            && t.ended && t.width == s.width && t.height == s.height
            && HoldsRun(s.interlDist != 1, t, y, Colours(s.palette, cs))
  {
    var r := PixelsPlaced(s, cs);
    var t := Feed(s, cs);
    RowsCounted(t, r);
    assert Final(t.interlDist, t.yoff, y) && y in r.order;
    FlatRows(r.done, s.width);
    assert s.height * s.width == s.width * s.height;
    assert r.cur == [];
    assert Flat(r.done) == Colours(s.palette, cs);
    var k :| 0 <= k < |r.order| && r.order[k] == y;
    TurnIsPosition(s.interlDist != 1, s.height, r.order, k);
    assert t.rows[r.order[k]] == r.done[k];
    FlatRow(r.done, s.width, k);
  }
}
