// Pictures as rows of pixels, what drawing does to them, and how the mouse cursor covers them
// (framebuffer.c): the values against which the framebuffer is proved.

module Canvas {

  type Pixel = int
  type Row = seq<Pixel>

  const ARROW_WIDTH := 32
  const ARROW_HEIGHT := 32

  datatype Dot = Clear | Black | White

  /** The cursor's shape, and its two colours as pixels. */
  datatype Cursor = Cursor(dots: seq<seq<Dot>>, black: Pixel, white: Pixel) {
    ghost predicate Sized() {
      |dots| == ARROW_HEIGHT && forall i :: 0 <= i < ARROW_HEIGHT ==> |dots[i]| == ARROW_WIDTH
    }

    /** What shows at row i, column j of the cursor, over the pixel p. */
    function Over(i: int, j: int, p: Pixel): Pixel
      requires Sized()
    {
      if 0 <= i < ARROW_HEIGHT && 0 <= j < ARROW_WIDTH then
        match dots[i][j]
        case Clear => p
        case Black => black
        case White => white
      else p
    }
  }

  /** A row of the picture with row i of the cursor on it, from column x. */
  function Cover(c: Cursor, row: Row, x: int, i: int): (r: Row)
    requires c.Sized()
    ensures |r| == |row| && forall k :: 0 <= k < |row| ==> r[k] == c.Over(i, k - x, row[k])
  {
    seq(|row|, k requires 0 <= k < |row| => c.Over(i, k - x, row[k]))
  }

  /** Copying pixels into a row. */
  function Write(row: Row, x: nat, piece: Row): (r: Row)
    requires x + |piece| <= |row|
    ensures |r| == |row|
    ensures forall k :: 0 <= k < |row| ==> r[k] == if x <= k < x + |piece| then piece[k - x] else row[k]
  {
    seq(|row|, k requires 0 <= k < |row| => if x <= k < x + |piece| then piece[k - x] else row[k])
  }

  /** How many columns of a cursor at x are on a screen of this width. */
  function Visible(x: nat, width: nat): (n: nat)
    requires x < width
    ensures n > 0 && n <= ARROW_WIDTH && x + n <= width
    ensures n < ARROW_WIDTH ==> x + n == width
  {
    if x + ARROW_WIDTH > width then width - x else ARROW_WIDTH
  }

  /** The buffer row b holds what is on the picture's row from column x. */
  ghost predicate Saves(b: Row, row: Row, x: nat) {
    x < |row| && |b| == ARROW_WIDTH && b[..Visible(x, |row|)] == row[x..x + Visible(x, |row|)]
  }

  lemma SavesAt(b: Row, row: Row, x: nat, j: nat)
    requires Saves(b, row, x) && j < ARROW_WIDTH && x + j < |row|
    ensures j < Visible(x, |row|) && b[j] == row[x + j]
  {
    assert b[..Visible(x, |row|)][j] == row[x..x + Visible(x, |row|)][j];
  }

  /** A buffer row with the cursor rendered on it. */
  function Rendered(c: Cursor, b: Row, i: int): (r: Row)
    requires c.Sized()
  {
    Cover(c, b, 0, i)
  }

  lemma OutsideCover(c: Cursor, row: Row, x: int, i: int)
    requires c.Sized() && !(0 <= i < ARROW_HEIGHT && -ARROW_WIDTH < x < |row|)
    ensures Cover(c, row, x, i) == row
  {
  }

  /** Writing the saved background takes the cursor away. */
  lemma Uncover(c: Cursor, row: Row, x: nat, i: int, b: Row)
    requires c.Sized() && Saves(b, row, x)
    ensures Write(Cover(c, row, x, i), x, b[..Visible(x, |row|)]) == row
  {
    var n := Visible(x, |row|);
    forall k | 0 <= k < |row|
      ensures Write(Cover(c, row, x, i), x, b[..n])[k] == row[k]
    {
      if x <= k < x + n {
        SavesAt(b, row, x, k - x);
      }
    }
  }

  lemma RenderedAt(c: Cursor, row: Row, x: nat, i: int, b: Row, k: nat)
    requires c.Sized() && Saves(b, row, x) && x <= k < |row| && k - x < ARROW_WIDTH
    ensures Rendered(c, b, i)[k - x] == Cover(c, row, x, i)[k]
  {
    SavesAt(b, row, x, k - x);
  }

  /** Writing the rendered background puts the cursor on. */
  lemma CoverUp(c: Cursor, row: Row, x: nat, i: int, b: Row)
    requires c.Sized() && Saves(b, row, x)
    ensures Write(row, x, Rendered(c, b, i)[..Visible(x, |row|)]) == Cover(c, row, x, i)
  {
    var n := Visible(x, |row|);
    forall k | 0 <= k < |row|
      ensures Write(row, x, Rendered(c, b, i)[..n])[k] == Cover(c, row, x, i)[k]
    {
      if x <= k < x + n {
        RenderedAt(c, row, x, i, b, k);
      }
    }
  }

  /** The old cursor sticks out on the left: background up to the new cursor, then the new cursor. */
  lemma MoveRight(c: Cursor, row: Row, x0: nat, i0: int, b0: Row, x1: nat, i1: int, b1: Row)
    requires c.Sized() && Saves(b0, row, x0) && Saves(b1, row, x1) && x0 < x1 < x0 + ARROW_WIDTH
    ensures Write(Write(Cover(c, row, x0, i0), x0, b0[..x1 - x0]), x1, Rendered(c, b1, i1)[..Visible(x1, |row|)])
         == Cover(c, row, x1, i1)
  {
    var n := Visible(x1, |row|);
    var r := Write(Cover(c, row, x0, i0), x0, b0[..x1 - x0]);
    forall k | 0 <= k < |row|
      ensures Write(r, x1, Rendered(c, b1, i1)[..n])[k] == Cover(c, row, x1, i1)[k]
    {
      if x1 <= k < x1 + n {
        RenderedAt(c, row, x1, i1, b1, k);
      } else if x0 <= k < x1 {
        SavesAt(b0, row, x0, k - x0);
      }
    }
  }

  /** What of the old cursor sticks out on the right. */
  function Remnant(x0: nat, x1: nat, width: nat): int {
    (if x0 + ARROW_WIDTH > width then width else x0 + ARROW_WIDTH) - (x1 + ARROW_WIDTH)
  }

  lemma MoveLeftAt(c: Cursor, row: Row, x0: nat, i0: int, b0: Row, x1: nat, i1: int, b1: Row, r: Row, k: nat)
    requires c.Sized() && Saves(b0, row, x0) && Saves(b1, row, x1) && x1 <= x0 < x1 + ARROW_WIDTH && k < |row|
    requires r == Write(Cover(c, row, x0, i0), x1, Rendered(c, b1, i1)[..Visible(x1, |row|)])
    ensures if x1 + ARROW_WIDTH <= k < x0 + ARROW_WIDTH then b0[k - x0] == row[k] == Cover(c, row, x1, i1)[k]
            else r[k] == Cover(c, row, x1, i1)[k]
  {
    if x1 <= k < x1 + Visible(x1, |row|) {
      RenderedAt(c, row, x1, i1, b1, k);
    } else if x1 + ARROW_WIDTH <= k < x0 + ARROW_WIDTH {
      SavesAt(b0, row, x0, k - x0);
    }
  }

  /** The old cursor does not stick out on the left: the new cursor, then what background is left over. */
  lemma MoveLeft(c: Cursor, row: Row, x0: nat, i0: int, b0: Row, x1: nat, i1: int, b1: Row)
    requires c.Sized() && Saves(b0, row, x0) && Saves(b1, row, x1) && x1 <= x0 < x1 + ARROW_WIDTH
    ensures var r := Write(Cover(c, row, x0, i0), x1, Rendered(c, b1, i1)[..Visible(x1, |row|)]);
            var l, m := x1 + ARROW_WIDTH - x0, Remnant(x0, x1, |row|);
            && (m <= 0 ==> r == Cover(c, row, x1, i1))
            && (m > 0 ==> x1 + ARROW_WIDTH + m <= |row| && l + m <= ARROW_WIDTH
                          && Write(r, x1 + ARROW_WIDTH, b0[l..l + m]) == Cover(c, row, x1, i1))
  {
    var r := Write(Cover(c, row, x0, i0), x1, Rendered(c, b1, i1)[..Visible(x1, |row|)]);
    var l, m := x1 + ARROW_WIDTH - x0, Remnant(x0, x1, |row|);
    forall k | 0 <= k < |row|
      ensures if x1 + ARROW_WIDTH <= k < x0 + ARROW_WIDTH then b0[k - x0] == row[k] == Cover(c, row, x1, i1)[k]
              else r[k] == Cover(c, row, x1, i1)[k]
    {
      MoveLeftAt(c, row, x0, i0, b0, x1, i1, b1, r, k);
    }
  }

  /** The part of the old background that lies under the new cursor: where it starts in the new buffer. */
  function OverlapStart(left: int): nat {
    if left < 0 then 0 else left
  }

  function OverlapEnd(left: int): int {
    if left + ARROW_WIDTH > ARROW_WIDTH then ARROW_WIDTH else left + ARROW_WIDTH
  }

  lemma RepairAt(c: Cursor, row: Row, x0: nat, i0: int, b0: Row, x1: nat, got: Row, fixed: Row, j: nat)
    requires c.Sized() && Saves(b0, row, x0) && Saves(got, Cover(c, row, x0, i0), x1)
    requires -ARROW_WIDTH < x0 - x1 < ARROW_WIDTH && j < Visible(x1, |row|)
    requires fixed == Write(got, OverlapStart(x0 - x1), b0[OverlapStart(x0 - x1) - (x0 - x1)..OverlapEnd(x0 - x1) - (x0 - x1)])
    ensures fixed[j] == row[x1 + j]
  {
    SavesAt(got, Cover(c, row, x0, i0), x1, j);
    if OverlapStart(x0 - x1) <= j < OverlapEnd(x0 - x1) {
      SavesAt(b0, row, x0, j - (x0 - x1));
    }
  }

  /** Taking the new background from the screen and repairing it from the old one. */
  lemma Repair(c: Cursor, row: Row, x0: nat, i0: int, b0: Row, x1: nat, got: Row)
    requires c.Sized() && Saves(b0, row, x0) && Saves(got, Cover(c, row, x0, i0), x1)
    requires -ARROW_WIDTH < x0 - x1 < ARROW_WIDTH
    ensures var from, to := OverlapStart(x0 - x1), OverlapEnd(x0 - x1);
            && 0 <= from - (x0 - x1) <= to - (x0 - x1) <= ARROW_WIDTH
            && Saves(Write(got, from, b0[from - (x0 - x1)..to - (x0 - x1)]), row, x1)
  {
    var n := Visible(x1, |row|);
    var fixed := Write(got, OverlapStart(x0 - x1), b0[OverlapStart(x0 - x1) - (x0 - x1)..OverlapEnd(x0 - x1) - (x0 - x1)]);
    forall j | 0 <= j < n
      ensures fixed[j] == row[x1 + j]
    {
      RepairAt(c, row, x0, i0, b0, x1, got, fixed, j);
    }
    assert fixed[..n] == row[x1..x1 + n];
  }

  // ----- Drawing on a picture -----

  type Picture = seq<Row>

  ghost predicate IsSize(p: Picture, width: nat, height: nat) {
    |p| == height && forall y :: 0 <= y < height ==> |p[y]| == width
  }

  datatype Rect = Rect(x1: int, y1: int, x2: int, y2: int) {
    predicate Inside(width: nat, height: nat) {
      0 <= x1 <= x2 <= width && 0 <= y1 <= y2 <= height
    }
  }

  /** Where the row of a bitmap at column x lands between the columns x1 and x2. */
  function BlitRow(row: Row, bits: Row, x: int, x1: int, x2: int): (r: Row)
    ensures |r| == |row|
    ensures forall k :: 0 <= k < |row| ==> r[k] == if x1 <= k < x2 && 0 <= k - x < |bits| then bits[k - x] else row[k]
  {
    seq(|row|, k requires 0 <= k < |row| => if x1 <= k < x2 && 0 <= k - x < |bits| then bits[k - x] else row[k])
  }

  /** A bitmap drawn at (x, y), as far as the clipping rectangle allows. */
  function Blit(p: Picture, bmp: Picture, x: int, y: int, clip: Rect): (q: Picture)
    ensures |q| == |p|
    ensures forall k :: 0 <= k < |p| ==>
              q[k] == if clip.y1 <= k < clip.y2 && 0 <= k - y < |bmp| then BlitRow(p[k], bmp[k - y], x, clip.x1, clip.x2) else p[k]
  {
    seq(|p|, k requires 0 <= k < |p| =>
      if clip.y1 <= k < clip.y2 && 0 <= k - y < |bmp| then BlitRow(p[k], bmp[k - y], x, clip.x1, clip.x2) else p[k])
  }

  /** The picture with the cursor at (x, y). */
  function WithCursor(c: Cursor, p: Picture, x: int, y: int): (q: Picture)
    requires c.Sized()
    ensures |q| == |p| && forall k :: 0 <= k < |p| ==> q[k] == Cover(c, p[k], x, k - y)
  {
    seq(|p|, k requires 0 <= k < |p| => Cover(c, p[k], x, k - y))
  }

  predicate Meets(xl0: int, xh0: int, xl1: int, xh1: int, yl0: int, yh0: int, yl1: int, yh1: int) {
    xl0 < xh1 && xl1 < xh0 && yl0 < yh1 && yl1 < yh0
  }

  /** The cursor at (x, y) is clear of the rectangle. */
  predicate Apart(r: Rect, x: int, y: int) {
    !Meets(r.x1, r.x2, x, x + ARROW_WIDTH, r.y1, r.y2, y, y + ARROW_HEIGHT)
  }

  /** q is p changed inside the rectangle only. */
  ghost predicate ChangedWithin(p: Picture, q: Picture, r: Rect) {
    && |p| == |q|
    && (forall y :: 0 <= y < |p| ==> |p[y]| == |q[y]|)
    && (forall y, x :: 0 <= y < |p| && 0 <= x < |p[y]| && !(r.x1 <= x < r.x2 && r.y1 <= y < r.y2) ==> q[y][x] == p[y][x])
  }

  /** Rows and columns of a bitmap row that are on the screen. */
  lemma BlitRowVisible(row: Row, bits: Row, x: nat)
    requires x < |row| && |bits| == ARROW_WIDTH
    ensures BlitRow(row, bits, x, 0, |row|) == Write(row, x, bits[..Visible(x, |row|)])
  {
  }

  /** A drawing operation that stays inside a rectangle clear of the cursor, and does the same with and without it. */
  lemma DrawnBeside(c: Cursor, u: Picture, u1: Picture, w1: Picture, r: Rect, x: int, y: int)
    requires c.Sized() && Apart(r, x, y)
    requires ChangedWithin(u, u1, r) && ChangedWithin(WithCursor(c, u, x, y), w1, r)
    requires forall k, j :: 0 <= k < |u| && 0 <= j < |u[k]| && r.y1 <= k < r.y2 && r.x1 <= j < r.x2 ==> w1[k][j] == u1[k][j]
    ensures w1 == WithCursor(c, u1, x, y)
  {
    var w := WithCursor(c, u, x, y);
    forall k | 0 <= k < |u|
      ensures w1[k] == Cover(c, u1[k], x, k - y)
    {
      forall j | 0 <= j < |u[k]|
        ensures w1[k][j] == c.Over(k - y, j - x, u1[k][j])
      {
        if !(r.y1 <= k < r.y2 && r.x1 <= j < r.x2) {
          assert w1[k][j] == w[k][j] && u1[k][j] == u[k][j];
        }
      }
      assert |w1[k]| == |w[k]|;
    }
  }

  /** Off the rectangle the picture still is what the buffer saved. */
  lemma StillSaved(u: Picture, u1: Picture, r: Rect, x: nat, y: nat, b: Row, i: nat)
    requires ChangedWithin(u, u1, r) && Apart(r, x, y) && i < ARROW_HEIGHT && y + i < |u| && Saves(b, u[y + i], x)
    ensures Saves(b, u1[y + i], x)
  {
    var k := y + i;
    var n := Visible(x, |u[k]|);
    forall j | 0 <= j < n
      ensures b[j] == u1[k][x + j]
    {
      SavesAt(b, u[k], x, j);
      assert u1[k][x + j] == u[k][x + j];
    }
    assert b[..n] == u1[k][x..x + n];
  }

  /** The part of the rectangle that a bitmap of this size covers at (x, y): what the clipping computes. */
  function Clipped(clip: Rect, x: int, y: int, w: nat, h: nat): Rect {
    Rect(if clip.x1 - x > 0 then clip.x1 else x, if clip.y1 - y > 0 then clip.y1 else y,
         if x + w > clip.x2 then clip.x2 else x + w, if y + h > clip.y2 then clip.y2 else y + h)
  }

  ghost predicate BitmapSized(bmp: Picture, w: nat) {
    forall i :: 0 <= i < |bmp| ==> |bmp[i]| == w
  }

  lemma BlitBeside(c: Cursor, u: Picture, bmp: Picture, w: nat, x: int, y: int, clip: Rect, mx: int, my: int)
    requires c.Sized() && BitmapSized(bmp, w) && Apart(Clipped(clip, x, y, w, |bmp|), mx, my)
    ensures ChangedWithin(u, Blit(u, bmp, x, y, clip), Clipped(clip, x, y, w, |bmp|))
    ensures Blit(WithCursor(c, u, mx, my), bmp, x, y, clip) == WithCursor(c, Blit(u, bmp, x, y, clip), mx, my)
  {
    var r := Clipped(clip, x, y, w, |bmp|);
    BlitWithin(u, bmp, w, x, y, clip);
    BlitWithin(WithCursor(c, u, mx, my), bmp, w, x, y, clip);
    DrawnBeside(c, u, Blit(u, bmp, x, y, clip), Blit(WithCursor(c, u, mx, my), bmp, x, y, clip), r, mx, my);
  }

  lemma BlitWithin(u: Picture, bmp: Picture, w: nat, x: int, y: int, clip: Rect)
    requires BitmapSized(bmp, w)
    ensures ChangedWithin(u, Blit(u, bmp, x, y, clip), Clipped(clip, x, y, w, |bmp|))
  {
  }

  // ----- Filling and scrolling -----

  function FillRow(row: Row, x1: int, x2: int, colour: Pixel): (r: Row)
    ensures |r| == |row| && forall k :: 0 <= k < |row| ==> r[k] == if x1 <= k < x2 then colour else row[k]
  {
    seq(|row|, k requires 0 <= k < |row| => if x1 <= k < x2 then colour else row[k])
  }

  function Fill(p: Picture, r: Rect, colour: Pixel): (q: Picture)
    ensures |q| == |p|
    ensures forall k :: 0 <= k < |p| ==> q[k] == if r.y1 <= k < r.y2 then FillRow(p[k], r.x1, r.x2, colour) else p[k]
  {
    seq(|p|, k requires 0 <= k < |p| => if r.y1 <= k < r.y2 then FillRow(p[k], r.x1, r.x2, colour) else p[k])
  }

  lemma FillBeside(c: Cursor, u: Picture, r: Rect, colour: Pixel, mx: int, my: int)
    requires c.Sized() && Apart(r, mx, my)
    ensures ChangedWithin(u, Fill(u, r, colour), r)
    ensures Fill(WithCursor(c, u, mx, my), r, colour) == WithCursor(c, Fill(u, r, colour), mx, my)
  {
    DrawnBeside(c, u, Fill(u, r, colour), Fill(WithCursor(c, u, mx, my), r, colour), r, mx, my);
  }

  function Splice(row: Row, src: Row, x1: int, x2: int): (r: Row)
    ensures |r| == |row|
    ensures forall k :: 0 <= k < |row| ==> r[k] == if x1 <= k < x2 && k < |src| then src[k] else row[k]
  {
    seq(|row|, k requires 0 <= k < |row| => if x1 <= k < x2 && k < |src| then src[k] else row[k])
  }

  /** Inside the rectangle everything moves down by n rows (up if negative); what nothing moves onto stays. */
  function ScrollDown(p: Picture, r: Rect, n: int): (q: Picture)
    ensures |q| == |p|
    ensures forall k :: 0 <= k < |p| ==>
              q[k] == if r.y1 <= k < r.y2 && r.y1 <= k - n < r.y2 && 0 <= k - n < |p| then Splice(p[k], p[k - n], r.x1, r.x2) else p[k]
  {
    seq(|p|, k requires 0 <= k < |p| =>
      if r.y1 <= k < r.y2 && r.y1 <= k - n < r.y2 && 0 <= k - n < |p| then Splice(p[k], p[k - n], r.x1, r.x2) else p[k])
  }

  function ShiftRow(row: Row, x1: int, x2: int, n: int): (r: Row)
    ensures |r| == |row|
    ensures forall k :: 0 <= k < |row| ==> r[k] == if x1 <= k < x2 && x1 <= k - n < x2 && 0 <= k - n < |row| then row[k - n] else row[k]
  {
    seq(|row|, k requires 0 <= k < |row| => if x1 <= k < x2 && x1 <= k - n < x2 && 0 <= k - n < |row| then row[k - n] else row[k])
  }

  lemma ShiftIsWrite(row: Row, x1: nat, x2: nat, n: int)
    requires x1 <= x2 <= |row| && -(x2 - x1) <= n <= x2 - x1
    ensures n > 0 ==> ShiftRow(row, x1, x2, n) == Write(row, x1 + n, row[x1..x2 - n])
    ensures n <= 0 ==> ShiftRow(row, x1, x2, n) == Write(row, x1, row[x1 - n..x2])
  {
    if n > 0 {
      var r := Write(row, x1 + n, row[x1..x2 - n]);
      ShiftedBy(row, x1, x2 - n, n, r);
      ShiftRowIs(row, x1, x2, n, r);
    } else {
      var r := Write(row, x1, row[x1 - n..x2]);
      ShiftedBy(row, x1 - n, x2, n, r);
      ShiftRowIs(row, x1, x2, n, r);
    }
  }

  lemma ShiftRowIs(row: Row, x1: nat, x2: nat, n: int, r: Row)
    requires x1 <= x2 <= |row| && |r| == |row|
    requires forall k {:trigger r[k]} :: 0 <= k < |row| ==> r[k] == if x1 <= k < x2 && x1 <= k - n < x2 then row[k - n] else row[k]
    ensures ShiftRow(row, x1, x2, n) == r
  {
    forall k | 0 <= k < |row|
      ensures ShiftRow(row, x1, x2, n)[k] == r[k]
    {
    }
  }

  lemma ShiftedBy(row: Row, from: nat, to: nat, n: int, r: Row)
    requires from <= to <= |row| && 0 <= from + n && to + n <= |row| && r == Write(row, from + n, row[from..to])
    ensures forall k {:trigger r[k]} :: 0 <= k < |row| ==> r[k] == if from <= k - n < to then row[k - n] else row[k]
  {
  }

  /** Inside the rectangle everything moves right by n columns (left if negative). */
  function ScrollRight(p: Picture, r: Rect, n: int): (q: Picture)
    ensures |q| == |p|
    ensures forall k :: 0 <= k < |p| ==> q[k] == if r.y1 <= k < r.y2 then ShiftRow(p[k], r.x1, r.x2, n) else p[k]
  {
    seq(|p|, k requires 0 <= k < |p| => if r.y1 <= k < r.y2 then ShiftRow(p[k], r.x1, r.x2, n) else p[k])
  }

  lemma ScrollDownSame(c: Cursor, u: Picture, r: Rect, n: int, width: nat, mx: int, my: int, k: nat, j: nat)
    requires c.Sized() && Apart(r, mx, my) && IsSize(u, width, |u|) && r.Inside(width, |u|)
    requires k < |u| && j < width && r.y1 <= k < r.y2 && r.x1 <= j < r.x2
    ensures ScrollDown(WithCursor(c, u, mx, my), r, n)[k][j] == ScrollDown(u, r, n)[k][j]
  {
    var w := WithCursor(c, u, mx, my);
    assert w[k][j] == u[k][j];
    if r.y1 <= k - n < r.y2 {
      assert w[k - n][j] == u[k - n][j];
    }
  }

  lemma ScrollDownBeside(c: Cursor, u: Picture, r: Rect, n: int, width: nat, mx: int, my: int)
    requires c.Sized() && Apart(r, mx, my) && IsSize(u, width, |u|) && r.Inside(width, |u|)
    ensures ChangedWithin(u, ScrollDown(u, r, n), r)
    ensures ScrollDown(WithCursor(c, u, mx, my), r, n) == WithCursor(c, ScrollDown(u, r, n), mx, my)
  {
    forall k, j | 0 <= k < |u| && 0 <= j < |u[k]| && r.y1 <= k < r.y2 && r.x1 <= j < r.x2
      ensures ScrollDown(WithCursor(c, u, mx, my), r, n)[k][j] == ScrollDown(u, r, n)[k][j]
    {
      ScrollDownSame(c, u, r, n, width, mx, my, k, j);
    }
    DrawnBeside(c, u, ScrollDown(u, r, n), ScrollDown(WithCursor(c, u, mx, my), r, n), r, mx, my);
  }

  lemma ScrollRightBeside(c: Cursor, u: Picture, r: Rect, n: int, width: nat, mx: int, my: int)
    requires c.Sized() && Apart(r, mx, my) && IsSize(u, width, |u|) && r.Inside(width, |u|)
    ensures ChangedWithin(u, ScrollRight(u, r, n), r)
    ensures ScrollRight(WithCursor(c, u, mx, my), r, n) == WithCursor(c, ScrollRight(u, r, n), mx, my)
  {
    DrawnBeside(c, u, ScrollRight(u, r, n), ScrollRight(WithCursor(c, u, mx, my), r, n), r, mx, my);
  }

  /** Scrolling by nothing or by more than the rectangle leaves the picture alone. */
  lemma ScrollDownNothing(u: Picture, r: Rect, n: int)
    requires n == 0 || n > r.y2 - r.y1 || -n > r.y2 - r.y1
    ensures ScrollDown(u, r, n) == u
  {
    forall k | 0 <= k < |u|
      ensures ScrollDown(u, r, n)[k] == u[k]
    {
    }
  }

  lemma ScrollRightNothing(u: Picture, r: Rect, n: int)
    requires n == 0 || n > r.x2 - r.x1 || -n > r.x2 - r.x1
    ensures ScrollRight(u, r, n) == u
  {
    forall k | 0 <= k < |u|
      ensures ScrollRight(u, r, n)[k] == u[k]
    {
    }
  }

  /** Setting the clipping rectangle (framebuffer.c, fb_set_clip_area). */
  function SetClipArea(r: Rect, width: nat, height: nat): (c: Rect)
    ensures c.Inside(width, height)
    ensures forall x, y {:trigger OnRect(c, x, y)} :: 0 <= x < width && 0 <= y < height ==> (OnRect(c, x, y) <==> OnRect(r, x, y))
  {
    if r.x1 >= r.x2 || r.y2 <= r.y1 || r.y2 <= 0 || r.x2 <= 0 || r.x1 >= width || r.y1 >= height then Rect(0, 0, 0, 0)
    else
      Rect(if r.x1 < 0 then 0 else r.x1, if r.y1 < 0 then 0 else r.y1,
           if r.x2 > width then width else r.x2, if r.y2 > height then height else r.y2)
  }

  predicate OnRect(r: Rect, x: int, y: int) {
    r.x1 <= x < r.x2 && r.y1 <= y < r.y2
  }
}
