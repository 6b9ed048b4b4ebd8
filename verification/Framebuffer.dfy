// The software mouse cursor of the framebuffer driver (framebuffer.c): it is drawn into the screen, with
// the pixels under it kept in a buffer. The screen always is the picture underneath plus the cursor.

module Framebuffer {
  import Basics
  import opened Canvas

  /** The buffer holds what is under a cursor at (x, y), as far as that is on the screen. */
  ghost predicate BufferSaves(b: seq<Row>, u: Picture, x: nat, y: nat) {
    && BufferSized(b)
    && (forall i :: 0 <= i < ARROW_HEIGHT && y + i < |u| ==> Saves(b[i], u[y + i], x))
  }

  predicate BufferSized(b: seq<Row>) {
    |b| == ARROW_HEIGHT && forall i :: 0 <= i < ARROW_HEIGHT ==> |b[i]| == ARROW_WIDTH
  }

  /** Row i of the new background after the old one has been put over it. */
  function Mended(got: seq<Row>, saved: seq<Row>, left: int, top: int, i: int): Row
    requires BufferSized(got) && BufferSized(saved) && 0 <= i < ARROW_HEIGHT
    requires -ARROW_WIDTH < left < ARROW_WIDTH && -ARROW_HEIGHT < top < ARROW_HEIGHT
  {
    if top <= i < top + ARROW_HEIGHT then
      Write(got[i], OverlapStart(left), saved[i - top][OverlapStart(left) - left..OverlapEnd(left) - left])
    else got[i]
  }

  function MendedRows(got: seq<Row>, saved: seq<Row>, left: int, top: int): (r: seq<Row>)
    requires BufferSized(got) && BufferSized(saved)
    requires -ARROW_WIDTH < left < ARROW_WIDTH && -ARROW_HEIGHT < top < ARROW_HEIGHT
    ensures BufferSized(r)
  {
    seq(ARROW_HEIGHT, i requires 0 <= i < ARROW_HEIGHT => Mended(got, saved, left, top, i))
  }

  /** The rows and columns that are mended, as the source computes them. */
  lemma MendedLines(got: seq<Row>, saved: seq<Row>, dx: int, dy: int, top: int, bottom: int, left: int, right: int, mended: seq<Row>)
    requires BufferSized(got) && BufferSized(saved)
    requires -ARROW_WIDTH < dx < ARROW_WIDTH && -ARROW_HEIGHT < dy < ARROW_HEIGHT
    requires mended == MendedRows(got, saved, dx, dy)
    requires top == (if dy < 0 then 0 else dy) && bottom == (if dy > 0 then ARROW_HEIGHT else dy + ARROW_HEIGHT)
    requires left == OverlapStart(dx) && right == OverlapEnd(dx)
    ensures 0 <= left <= right <= ARROW_WIDTH && 0 <= left - dx && right - dx <= ARROW_WIDTH
    ensures forall i :: 0 <= i < ARROW_HEIGHT ==>
              mended[i] == if top <= i < bottom then Write(got[i], left, saved[i - dy][left - dx..right - dx]) else got[i]
  {
    forall i | 0 <= i < ARROW_HEIGHT
      ensures mended[i] == if top <= i < bottom then Write(got[i], left, saved[i - dy][left - dx..right - dx]) else got[i]
    {
      assert mended[i] == Mended(got, saved, dx, dy, i);
    }
  }

  /** What is left of drawing the rows from y on. */
  ghost function BlitFrom(p: Picture, bmp: Picture, x0: int, y0: int, x1: int, x2: int, y: nat, y2: nat): (r: Picture)
    requires y < y2 ==> y2 <= |p| && 0 <= y - y0 && y2 - y0 <= |bmp|
    ensures |r| == |p|
    decreases y2 - y
  {
    if y >= y2 then p else BlitFrom(p[y := BlitRow(p[y], bmp[y - y0], x0, x1, x2)], bmp, x0, y0, x1, x2, y + 1, y2)
  }

  lemma {:induction false} BlitFromAt(p: Picture, bmp: Picture, x0: int, y0: int, x1: int, x2: int, y: nat, y2: nat, k: nat)
    requires k < |p| && (y < y2 ==> y2 <= |p| && 0 <= y - y0 && y2 - y0 <= |bmp|)
    ensures [BlitFrom(p, bmp, x0, y0, x1, x2, y, y2)[k]]
            == [if y <= k < y2 then BlitRow(p[k], bmp[k - y0], x0, x1, x2) else p[k]]
    decreases y2 - y
  {
    if y < y2 {
      BlitFromAt(p[y := BlitRow(p[y], bmp[y - y0], x0, x1, x2)], bmp, x0, y0, x1, x2, y + 1, y2, k);
    }
  }

  class Screen {
    const width: nat
    const height: nat
    const cursor: Cursor
    const rows: array<Row>
    const mouseBuffer: array<Row>
    const backgroundBuffer: array<Row>
    const newBackgroundBuffer: array<Row>
    var mouseX: nat
    var mouseY: nat
    /** Where the background was taken from. */
    var backgroundX: nat
    var backgroundY: nat
    var hidden: bool

    /** The mouse part of the driver's start (lines 1316-1325). */
    constructor (rows: array<Row>, width: nat, height: nat, cursor: Cursor)
      requires 0 < width && 0 < height && cursor.Sized() && IsSize(rows[..], width, height)
      ensures Valid() && hidden && this.rows == rows && this.width == width && this.height == height && this.cursor == cursor
      ensures fresh(mouseBuffer) && fresh(backgroundBuffer) && fresh(newBackgroundBuffer)
    {
      this.rows, this.width, this.height, this.cursor := rows, width, height, cursor;
      mouseBuffer := new Row[ARROW_HEIGHT](_ => seq(ARROW_WIDTH, _ => 0));
      backgroundBuffer := new Row[ARROW_HEIGHT](_ => seq(ARROW_WIDTH, _ => 0));
      newBackgroundBuffer := new Row[ARROW_HEIGHT](_ => seq(ARROW_WIDTH, _ => 0));
      mouseX, mouseY, backgroundX, backgroundY := width / 2, height / 2, width / 2, height / 2;
      hidden := true;
    }

    ghost predicate Placed()
      reads `mouseX, `mouseY, `backgroundX, `backgroundY
    {
      mouseX < width && mouseY < height && backgroundX < width && backgroundY < height && cursor.Sized()
    }

    ghost predicate Distinct() {
      && rows != mouseBuffer && rows != backgroundBuffer && rows != newBackgroundBuffer
      && mouseBuffer != backgroundBuffer && mouseBuffer != newBackgroundBuffer && backgroundBuffer != newBackgroundBuffer
    }

    ghost predicate Valid()
      reads this, rows, mouseBuffer, backgroundBuffer, newBackgroundBuffer
    {
      && Placed() && Distinct() && IsSize(rows[..], width, height)
      && BufferSized(mouseBuffer[..]) && BufferSized(backgroundBuffer[..]) && BufferSized(newBackgroundBuffer[..])
    }

    /** The screen is the picture u, with the cursor on it unless hidden; what the cursor covers is saved. */
    ghost predicate Shows(u: Picture)
      reads this, rows, mouseBuffer, backgroundBuffer, newBackgroundBuffer
    {
      && Valid() && IsSize(u, width, height)
      && if hidden then rows[..] == u
         else rows[..] == WithCursor(cursor, u, backgroundX, backgroundY)
              && BufferSaves(backgroundBuffer[..], u, backgroundX, backgroundY)
    }

    /** Copies the screen under the mouse position (lines 423-440). */
    method GetMouseBackground(buffer: array<Row>)
      requires Placed() && IsSize(rows[..], width, height) && BufferSized(buffer[..]) && buffer != rows
      modifies buffer
      ensures BufferSaves(buffer[..], rows[..], mouseX, mouseY)
    {
      var w := if ARROW_WIDTH + mouseX > width then width - mouseX else ARROW_WIDTH;
      var h := if ARROW_HEIGHT + mouseY > height then height - mouseY else ARROW_HEIGHT;
      var k := 0;
      while k < h
        invariant 0 <= k <= h && BufferSized(buffer[..])
        invariant forall i :: 0 <= i < k ==> Saves(buffer[i], rows[mouseY + i], mouseX)
      {
        var piece := rows[mouseY + k][mouseX..mouseX + w];
        buffer[k] := Write(buffer[k], 0, piece);
        assert buffer[k][..w] == piece;
        k := k + 1;
      }
    }

    /** Draws the cursor over the mouse buffer (lines 445-466). */
    method RenderMouseArrow()
      requires BufferSized(mouseBuffer[..]) && cursor.Sized()
      modifies mouseBuffer
      ensures BufferSized(mouseBuffer[..])
      ensures forall i :: 0 <= i < ARROW_HEIGHT ==> mouseBuffer[i] == Rendered(cursor, old(mouseBuffer[i]), i)
    {
      var y := 0;
      while y < ARROW_HEIGHT
        invariant 0 <= y <= ARROW_HEIGHT && BufferSized(mouseBuffer[..])
        invariant forall i :: 0 <= i < y ==> mouseBuffer[i] == Rendered(cursor, old(mouseBuffer[i]), i)
        invariant forall i :: y <= i < ARROW_HEIGHT ==> mouseBuffer[i] == old(mouseBuffer[i])
      {
        RenderRow(y);
        y := y + 1;
      }
    }

    method RenderRow(y: nat)
      requires y < ARROW_HEIGHT && BufferSized(mouseBuffer[..]) && cursor.Sized()
      modifies mouseBuffer
      ensures mouseBuffer[..] == old(mouseBuffer[..])[y := Rendered(cursor, old(mouseBuffer[y]), y)]
    {
      ghost var row := mouseBuffer[y];
      var x := 0;
      while x < ARROW_WIDTH
        invariant 0 <= x <= ARROW_WIDTH && |mouseBuffer[y]| == ARROW_WIDTH
        invariant forall j :: 0 <= j < ARROW_WIDTH ==> mouseBuffer[y][j] == if j < x then cursor.Over(y, j, row[j]) else row[j]
        invariant mouseBuffer[..] == old(mouseBuffer[..])[y := mouseBuffer[y]]
      {
        if cursor.dots[y][x] == Black {
          mouseBuffer[y] := mouseBuffer[y][x := cursor.black];
        } else if cursor.dots[y][x] == White {
          mouseBuffer[y] := mouseBuffer[y][x := cursor.white];
        }
        x := x + 1;
      }
      assert mouseBuffer[y] == Rendered(cursor, row, y);
    }

    method MendRow(top: nat, line: nat, left: nat, column: nat, n: nat)
      requires BufferSized(mouseBuffer[..]) && BufferSized(backgroundBuffer[..]) && mouseBuffer != backgroundBuffer
      requires top < ARROW_HEIGHT && line < ARROW_HEIGHT && left + n <= ARROW_WIDTH && column + n <= ARROW_WIDTH
      modifies mouseBuffer
      ensures mouseBuffer[..] == old(mouseBuffer[..])[top := Write(old(mouseBuffer[top]), left, backgroundBuffer[line][column..column + n])]
    {
      mouseBuffer[top] := Write(mouseBuffer[top], left, backgroundBuffer[line][column..column + n]);
    }

    /** Puts the old background over the new one where they overlap (lines 503-534). */
    method PutAndClipBackgroundBufferOverMouseBuffer(ghost got: seq<Row>, ghost saved: seq<Row>, ghost mended: seq<Row>)
      requires mouseBuffer != backgroundBuffer && Overlapping()
      requires got == mouseBuffer[..] && saved == backgroundBuffer[..] && BufferSized(got) && BufferSized(saved)
      requires mended == MendedRows(got, saved, backgroundX - mouseX, backgroundY - mouseY)
      modifies mouseBuffer
      ensures mouseBuffer[..] == mended
    {
      var left, top := backgroundX - mouseX, backgroundY - mouseY;
      var right, bottom := left + ARROW_WIDTH, top + ARROW_HEIGHT;
      var column, line := 0, 0;
      if left < 0 {
        column, left := -left, 0;
      }
      if right > ARROW_WIDTH {
        right := ARROW_WIDTH;
      }
      if top < 0 {
        line, top := -top, 0;
      }
      if bottom > ARROW_HEIGHT {
        bottom := ARROW_HEIGHT;
      }
      MendedLines(got, saved, backgroundX - mouseX, backgroundY - mouseY, top, bottom, left, right, mended);
      MendLines(top, bottom, line, left, column, right - left, mended);
    }

    /** The copying loop. */
    method MendLines(top0: nat, bottom: nat, line0: nat, left: nat, column: nat, n: nat, ghost mended: seq<Row>)
      requires BufferSized(mouseBuffer[..]) && BufferSized(backgroundBuffer[..]) && mouseBuffer != backgroundBuffer
      requires top0 <= bottom <= ARROW_HEIGHT && line0 + (bottom - top0) <= ARROW_HEIGHT
      requires left + n <= ARROW_WIDTH && column + n <= ARROW_WIDTH && |mended| == ARROW_HEIGHT
      requires forall i :: 0 <= i < ARROW_HEIGHT ==>
                 mended[i] == if top0 <= i < bottom then Write(mouseBuffer[i], left, backgroundBuffer[line0 + (i - top0)][column..column + n])
                              else mouseBuffer[i]
      modifies mouseBuffer
      ensures mouseBuffer[..] == mended
    {
      var top, line := top0, line0;
      ghost var got := mouseBuffer[..];
      while top < bottom
        invariant top0 <= top <= bottom && line == line0 + (top - top0)
        invariant BufferSized(mouseBuffer[..])
        invariant forall i :: 0 <= i < ARROW_HEIGHT ==> mouseBuffer[i] == if i < top then mended[i] else got[i]
      {
        MendRow(top, line, left, column, n);
        top, line := top + 1, line + 1;
      }
    }

    /** Puts a piece of a buffer row on the screen. */
    method DrawScanSegment(piece: Row, x: nat, y: nat)
      requires rows.Length == height && y < height && x + |piece| <= |rows[y]|
      modifies rows
      ensures rows[..] == old(rows[..])[y := Write(old(rows[y]), x, piece)]
    {
      rows[y] := Write(rows[y], x, piece);
    }

    method DrawTwoSegments(first: Row, x0: nat, second: Row, x1: nat, y: nat)
      requires rows.Length == height && y < height && x0 + |first| <= |rows[y]| && x1 + |second| <= |rows[y]|
      modifies rows
      ensures rows[..] == old(rows[..])[y := Write(Write(old(rows[y]), x0, first), x1, second)]
    {
      DrawScanSegment(first, x0, y);
      DrawScanSegment(second, x1, y);
    }

    // ----- Moving the cursor to a place where it overlaps the old one -----

    /** Both backgrounds are at hand, and the mouse buffer is the new one with the cursor rendered on it. */
    ghost predicate Loaded(u: Picture)
      reads this, mouseBuffer, backgroundBuffer, newBackgroundBuffer
    {
      && Placed() && IsSize(u, width, height)
      && BufferSaves(backgroundBuffer[..], u, backgroundX, backgroundY)
      && BufferSaves(newBackgroundBuffer[..], u, mouseX, mouseY)
      && BufferSized(mouseBuffer[..])
      && (forall i :: 0 <= i < ARROW_HEIGHT ==> mouseBuffer[i] == Rendered(cursor, newBackgroundBuffer[i], i))
    }

    ghost function NewRow(u: Picture, y: int): Row
      requires cursor.Sized() && 0 <= y < |u|
      reads `mouseX, `mouseY
    {
      Cover(cursor, u[y], mouseX, y - mouseY)
    }

    ghost function OldRow(u: Picture, y: int): Row
      requires cursor.Sized() && 0 <= y < |u|
      reads `backgroundX, `backgroundY
    {
      Cover(cursor, u[y], backgroundX, y - backgroundY)
    }

    /** The rows above `cur` show the new cursor, the others still the old one. */
    ghost predicate Moved(u: Picture, cur: int)
      requires cursor.Sized() && IsSize(u, width, height)
      reads rows, `mouseX, `mouseY, `backgroundX, `backgroundY
    {
      rows.Length == height && forall y :: 0 <= y < height ==> rows[y] == if y < cur then NewRow(u, y) else OldRow(u, y)
    }

    /** A row with the old cursor only. */
    method DrawBackgroundRow(y: nat, n: nat, ghost u: Picture)
      requires Loaded(u) && y < height && Moved(u, y) && Distinct()
      requires 0 <= y - backgroundY < ARROW_HEIGHT && !(0 <= y - mouseY < ARROW_HEIGHT)
      requires n == Visible(backgroundX, width)
      modifies rows
      ensures Moved(u, y + 1)
    {
      Uncover(cursor, u[y], backgroundX, y - backgroundY, backgroundBuffer[y - backgroundY]);
      OutsideCover(cursor, u[y], mouseX, y - mouseY);
      DrawScanSegment(backgroundBuffer[y - backgroundY][..n], backgroundX, y);
      assert rows[y] == NewRow(u, y);
    }

    /** A row with the new cursor only. */
    method DrawMouseRow(y: nat, n: nat, ghost u: Picture)
      requires Loaded(u) && y < height && Moved(u, y) && Distinct()
      requires 0 <= y - mouseY < ARROW_HEIGHT && !(0 <= y - backgroundY < ARROW_HEIGHT)
      requires n == Visible(mouseX, width)
      modifies rows
      ensures Moved(u, y + 1)
    {
      CoverUp(cursor, u[y], mouseX, y - mouseY, newBackgroundBuffer[y - mouseY]);
      OutsideCover(cursor, u[y], backgroundX, y - backgroundY);
      DrawScanSegment(mouseBuffer[y - mouseY][..n], mouseX, y);
      assert rows[y] == NewRow(u, y);
    }

    /** A row with both, the old cursor sticking out on the left (lines 580-589). */
    method DrawBackgroundAndMouse(y: nat, n: nat, ghost u: Picture)
      requires Loaded(u) && y < height && Moved(u, y) && Distinct()
      requires 0 <= y - mouseY < ARROW_HEIGHT && 0 <= y - backgroundY < ARROW_HEIGHT
      requires backgroundX < mouseX < backgroundX + ARROW_WIDTH && n == Visible(mouseX, width)
      modifies rows
      ensures Moved(u, y + 1)
    {
      MoveRight(cursor, u[y], backgroundX, y - backgroundY, backgroundBuffer[y - backgroundY],
                mouseX, y - mouseY, newBackgroundBuffer[y - mouseY]);
      DrawTwoSegments(backgroundBuffer[y - backgroundY][..mouseX - backgroundX], backgroundX,
                      mouseBuffer[y - mouseY][..n], mouseX, y);
      assert rows[y] == NewRow(u, y);
    }

    /** A row with both, the old cursor not sticking out on the left (lines 591-610). */
    method DrawMouseAndBackground(y: nat, n: nat, m: int, ghost u: Picture)
      requires Loaded(u) && y < height && Moved(u, y) && Distinct()
      requires 0 <= y - mouseY < ARROW_HEIGHT && 0 <= y - backgroundY < ARROW_HEIGHT
      requires mouseX <= backgroundX < mouseX + ARROW_WIDTH
      requires n == Visible(mouseX, width) && m == Remnant(backgroundX, mouseX, width)
      modifies rows
      ensures Moved(u, y + 1)
    {
      MoveLeft(cursor, u[y], backgroundX, y - backgroundY, backgroundBuffer[y - backgroundY],
               mouseX, y - mouseY, newBackgroundBuffer[y - mouseY]);
      if m > 0 {
        var l := mouseX + ARROW_WIDTH - backgroundX;
        DrawTwoSegments(mouseBuffer[y - mouseY][..n], mouseX,
                        backgroundBuffer[y - backgroundY][l..l + m], mouseX + ARROW_WIDTH, y);
      } else {
        DrawScanSegment(mouseBuffer[y - mouseY][..n], mouseX, y);
      }
      assert rows[y] == NewRow(u, y);
    }

    ghost predicate Overlapping()
      reads `mouseX, `mouseY, `backgroundX, `backgroundY
    {
      && -ARROW_WIDTH < backgroundX - mouseX < ARROW_WIDTH
      && -ARROW_HEIGHT < backgroundY - mouseY < ARROW_HEIGHT
    }

    /** The rows above the lower of the two tops (lines 557-576). */
    method PlaceTop(ghost u: Picture) returns (row: nat)
      requires Loaded(u) && Overlapping() && Distinct()
      requires Moved(u, if backgroundY < mouseY then backgroundY else mouseY)
      modifies rows
      ensures row == (if backgroundY < mouseY then mouseY else backgroundY) && Moved(u, row)
    {
      if backgroundY < mouseY {
        row := backgroundY;
        var n := if backgroundX + ARROW_WIDTH > width then width - backgroundX else ARROW_WIDTH;
        while row < mouseY
          invariant backgroundY <= row <= mouseY && Moved(u, row)
        {
          DrawBackgroundRow(row, n, u);
          row := row + 1;
        }
      } else {
        row := mouseY;
        var n := if mouseX + ARROW_WIDTH > width then width - mouseX else ARROW_WIDTH;
        while row < backgroundY
          invariant mouseY <= row <= backgroundY && Moved(u, row)
        {
          DrawMouseRow(row, n, u);
          row := row + 1;
        }
      }
    }

    /** The rows that both cursors have (lines 578-611). */
    method PlaceMiddle(top: nat, bottom: nat, ghost u: Picture)
      requires Loaded(u) && Overlapping() && Distinct()
      requires mouseY <= top <= bottom <= mouseY + ARROW_HEIGHT
      requires backgroundY <= top && bottom <= backgroundY + ARROW_HEIGHT && bottom <= height
      requires Moved(u, top)
      modifies rows
      ensures Moved(u, bottom)
    {
      var row := top;
      var n := if mouseX + ARROW_WIDTH > width then width - mouseX else ARROW_WIDTH;
      if backgroundX < mouseX {
        while row < bottom
          invariant top <= row <= bottom && Moved(u, row)
        {
          DrawBackgroundAndMouse(row, n, u);
          row := row + 1;
        }
      } else {
        var m := backgroundX + ARROW_WIDTH - (mouseX + ARROW_WIDTH);
        if m + (mouseX + ARROW_WIDTH) > width {
          m := width - (mouseX + ARROW_WIDTH);
        }
        while row < bottom
          invariant top <= row <= bottom && Moved(u, row)
        {
          DrawMouseAndBackground(row, n, m, u);
          row := row + 1;
        }
      }
    }

    /** The rows below the upper of the two bottoms (lines 613-632), which are cut at the screen's end. */
    method PlaceBottom(mouseBottom: nat, backgroundBottom: nat, ghost u: Picture)
      requires Loaded(u) && Overlapping() && Distinct()
      requires mouseBottom == (if mouseY + ARROW_HEIGHT > height then height else mouseY + ARROW_HEIGHT)
      requires backgroundBottom == (if backgroundY + ARROW_HEIGHT > height then height else backgroundY + ARROW_HEIGHT)
      requires Moved(u, if mouseBottom < backgroundBottom then mouseBottom else backgroundBottom)
      modifies rows
      ensures Moved(u, height)
    {
      var row: nat;
      if backgroundBottom < mouseBottom {
        row := backgroundBottom;
        var n := if mouseX + ARROW_WIDTH > width then width - mouseX else ARROW_WIDTH;
        while row < mouseBottom
          invariant backgroundBottom <= row <= mouseBottom && Moved(u, row)
        {
          DrawMouseRow(row, n, u);
          row := row + 1;
        }
      } else {
        row := mouseBottom;
        var n := if backgroundX + ARROW_WIDTH > width then width - backgroundX else ARROW_WIDTH;
        while row < backgroundBottom
          invariant mouseBottom <= row <= backgroundBottom && Moved(u, row)
        {
          DrawBackgroundRow(row, n, u);
          row := row + 1;
        }
      }
      assert row >= mouseBottom && row >= backgroundBottom;
      forall y | row <= y < height
        ensures OldRow(u, y) == NewRow(u, y)
      {
        OutsideCover(cursor, u[y], mouseX, y - mouseY);
        OutsideCover(cursor, u[y], backgroundX, y - backgroundY);
      }
    }

    /** Draws old background and new cursor together, row by row (lines 539-633). */
    method PlaceMouseComposite(ghost u: Picture)
      requires Loaded(u) && Overlapping() && Distinct()
      requires rows[..] == WithCursor(cursor, u, backgroundX, backgroundY)
      modifies rows
      ensures rows[..] == WithCursor(cursor, u, mouseX, mouseY)
    {
      var mouseBottom, backgroundBottom := mouseY + ARROW_HEIGHT, backgroundY + ARROW_HEIGHT;
      if mouseBottom > height {
        mouseBottom := height;
      }
      if backgroundBottom > height {
        backgroundBottom := height;
      }
      StartMoving(u);
      var top := PlaceTop(u);
      var bottom := if mouseBottom < backgroundBottom then mouseBottom else backgroundBottom;
      PlaceMiddle(top, bottom, u);
      PlaceBottom(mouseBottom, backgroundBottom, u);
      assert rows[..] == WithCursor(cursor, u, mouseX, mouseY);
    }

    /** Above both cursors old and new rows are the same. */
    lemma StartMoving(u: Picture)
      requires Placed() && IsSize(u, width, height) && rows[..] == WithCursor(cursor, u, backgroundX, backgroundY)
      ensures Moved(u, if backgroundY < mouseY then backgroundY else mouseY)
    {
      var top := if backgroundY < mouseY then backgroundY else mouseY;
      assert |rows[..]| == height;
      forall y | 0 <= y < height
        ensures rows[y] == OldRow(u, y) && (y < top ==> OldRow(u, y) == NewRow(u, y))
      {
        assert rows[y] == rows[..][y];
        if y < top {
          OutsideCover(cursor, u[y], mouseX, y - mouseY);
          OutsideCover(cursor, u[y], backgroundX, y - backgroundY);
        }
      }
    }

    /** memcpy of a whole cursor buffer. */
    method CopyBuffer(src: array<Row>, dst: array<Row>)
      requires BufferSized(src[..]) && BufferSized(dst[..]) && src != dst
      modifies dst
      ensures dst[..] == src[..]
    {
      forall i | 0 <= i < ARROW_HEIGHT {
        dst[i] := src[i];
      }
    }

    /** Moves the cursor to a place where old and new overlap (lines 638-652). */
    method RedrawMouseSophisticated(ghost u: Picture)
      requires Shows(u) && !hidden && Overlapping()
      modifies `backgroundX, `backgroundY, rows, mouseBuffer, backgroundBuffer, newBackgroundBuffer
      ensures Shows(u) && backgroundX == mouseX && backgroundY == mouseY
    {
      GetMouseBackground(mouseBuffer);
      ghost var got, saved := mouseBuffer[..], backgroundBuffer[..];
      ghost var mended := MendedRows(got, saved, backgroundX - mouseX, backgroundY - mouseY);
      MendedSaves(cursor, u, width, backgroundX, backgroundY, saved, mouseX, mouseY, got, mended);
      PutAndClipBackgroundBufferOverMouseBuffer(got, saved, mended);
      CopyBuffer(mouseBuffer, newBackgroundBuffer);
      RenderMouseArrow();
      assert backgroundBuffer[..] == saved;
      PlaceMouseComposite(u);
      CopyBuffer(newBackgroundBuffer, backgroundBuffer);
      backgroundX, backgroundY := mouseX, mouseY;
    }

    // ----- Hiding, showing and drawing -----

    /** The clipping and copying of fb_draw_bitmap (lines 178-200 and 1441-1446). */
    method CopyBitmap(clip: Rect, bmp: array<Row>, w: nat, x0: int, y0: int)
      requires IsSize(rows[..], width, height) && BitmapSized(bmp[..], w) && clip.Inside(width, height) && bmp != rows
      modifies rows
      ensures rows[..] == Blit(old(rows[..]), bmp[..], x0, y0, clip)
    {
      var x, y, xs, ys, column, line := x0, y0, w, bmp.Length, 0, 0;
      ghost var before, all := rows[..], bmp[..];
      if x >= clip.x2 || x + xs <= clip.x1 {
        BlitNothing(before, all, w, x0, y0, clip);
        return;
      }
      if y >= clip.y2 || y + ys <= clip.y1 {
        BlitNothing(before, all, w, x0, y0, clip);
        return;
      }
      if x + xs > clip.x2 {
        xs := clip.x2 - x;
      }
      if y + ys > clip.y2 {
        ys := clip.y2 - y;
      }
      if clip.x1 - x > 0 {
        xs := xs - (clip.x1 - x);
        column := column + (clip.x1 - x);
        x := clip.x1;
      }
      if clip.y1 - y > 0 {
        ys := ys - (clip.y1 - y);
        line := line + (clip.y1 - y);
        y := clip.y1;
      }
      BlitLines(before, all, width, w, x0, y0, clip, x, y, xs, ys);
      CopyLines(bmp, w, x, y, xs, ys, column, line, x0, y0);
    }

    /** The copying loop, once the place is known. */
    method CopyLines(bmp: array<Row>, w: nat, x: nat, y: nat, xs: nat, ys: nat, column: nat, line: nat, ghost x0: int, ghost y0: int)
      requires IsSize(rows[..], width, height) && BitmapSized(bmp[..], w) && bmp != rows
      requires x + xs <= width && y + ys <= height && column + xs <= w && line + ys <= bmp.Length
      requires x == x0 + column && y == y0 + line
      modifies rows
      ensures rows[..] == BlitFrom(old(rows[..]), bmp[..], x0, y0, x, x + xs, y, y + ys)
    {
      ghost var all := bmp[..];
      ghost var goal := BlitFrom(rows[..], all, x0, y0, x, x + xs, y, y + ys);
      var k := 0;
      while k < ys
        invariant 0 <= k <= ys && IsSize(rows[..], width, height)
        invariant goal == BlitFrom(rows[..], all, x0, y0, x, x + xs, y + k, y + ys)
      {
        CopyLine(bmp, w, x, y + k, xs, column, line + k);
        k := k + 1;
      }
    }

    method CopyLine(bmp: array<Row>, w: nat, x: nat, y: nat, xs: nat, column: nat, line: nat)
      requires y < rows.Length && line < bmp.Length && bmp != rows && |bmp[line]| == w
      requires x + xs <= |rows[y]| && column + xs <= w
      modifies rows
      ensures rows[..] == old(rows[..])[y := BlitRow(old(rows[y]), bmp[line], x - column, x, x + xs)]
    {
      assert Write(rows[y], x, bmp[line][column..column + xs]) == BlitRow(rows[y], bmp[line], x - column, x, x + xs);
      rows[y] := Write(rows[y], x, bmp[line][column..column + xs]);
    }

    /** Takes the cursor off the screen (lines 389-418). */
    method HideMouse(ghost u: Picture)
      requires Shows(u) && !hidden
      modifies `hidden, rows
      ensures Shows(u) && hidden
    {
      hidden := true;
      BlitUncovers(cursor, u, width, height, backgroundBuffer[..], backgroundX, backgroundY);
      CopyBitmap(Rect(0, 0, width, height), backgroundBuffer, ARROW_WIDTH, backgroundX, backgroundY);
    }

    /** Draws the mouse buffer at the mouse position (lines 468-485). */
    method PlaceMouse(ghost u: Picture, ghost b: seq<Row>, ghost r: seq<Row>)
      requires Placed() && IsSize(u, width, height) && rows[..] == u && mouseBuffer != rows
      requires BufferSaves(b, u, mouseX, mouseY) && r == mouseBuffer[..] && BufferSized(r)
      requires forall i :: 0 <= i < ARROW_HEIGHT ==> r[i] == Rendered(cursor, b[i], i)
      modifies `hidden, rows
      ensures rows[..] == WithCursor(cursor, u, mouseX, mouseY) && !hidden
    {
      BlitCovers(cursor, u, width, height, b, r, mouseX, mouseY);
      CopyBitmap(Rect(0, 0, width, height), mouseBuffer, ARROW_WIDTH, mouseX, mouseY);
      hidden := false;
    }

    /** Puts the cursor on the screen (lines 490-499). */
    method ShowMouse(ghost u: Picture)
      requires Shows(u) && hidden
      modifies `hidden, `backgroundX, `backgroundY, rows, mouseBuffer, backgroundBuffer
      ensures Shows(u) && !hidden && backgroundX == mouseX && backgroundY == mouseY
    {
      GetMouseBackground(backgroundBuffer);
      backgroundX, backgroundY := mouseX, mouseY;
      CopyBuffer(backgroundBuffer, mouseBuffer);
      ghost var b := mouseBuffer[..];
      RenderMouseArrow();
      ghost var r := mouseBuffer[..];
      assert forall i :: 0 <= i < ARROW_HEIGHT ==> r[i] == Rendered(cursor, b[i], i);
      PlaceMouse(u, b, r);
      assert backgroundBuffer[..] == b;
    }

    /** Moves the cursor on the screen to the mouse position (lines 654-678). */
    method RedrawMouse(ghost u: Picture)
      requires Shows(u) && !hidden
      modifies `hidden, `backgroundX, `backgroundY, rows, mouseBuffer, backgroundBuffer, newBackgroundBuffer
      ensures Shows(u) && !hidden && backgroundX == mouseX && backgroundY == mouseY
    {
      if mouseX != backgroundX || mouseY != backgroundY {
        if Meets(backgroundX, backgroundX + ARROW_WIDTH, mouseX, mouseX + ARROW_WIDTH,
                 backgroundY, backgroundY + ARROW_HEIGHT, mouseY, mouseY + ARROW_HEIGHT) {
          RedrawMouseSophisticated(u);
        } else {
          RedrawMouseElsewhere(u);
        }
      }
    }

    /** A normal hide and show (lines 664-676). */
    method RedrawMouseElsewhere(ghost u: Picture)
      requires Shows(u) && !hidden && !Overlapping()
      modifies `hidden, `backgroundX, `backgroundY, rows, mouseBuffer, backgroundBuffer, newBackgroundBuffer
      ensures Shows(u) && !hidden && backgroundX == mouseX && backgroundY == mouseY
    {
      ghost var b, r := TakeBackground(u);
      HideMouse(u);
      PlaceMouse(u, b, r);
      CopyBuffer(newBackgroundBuffer, backgroundBuffer);
      backgroundX, backgroundY := mouseX, mouseY;
    }

    /** Saves what the new place covers, clear of the old cursor, and renders the cursor on it (lines 667-670). */
    method TakeBackground(ghost u: Picture) returns (ghost b: seq<Row>, ghost r: seq<Row>)
      requires Shows(u) && !hidden && !Overlapping()
      modifies mouseBuffer, newBackgroundBuffer
      ensures Shows(u) && b == newBackgroundBuffer[..] && r == mouseBuffer[..] && BufferSaves(b, u, mouseX, mouseY)
      ensures forall i :: 0 <= i < ARROW_HEIGHT ==> r[i] == Rendered(cursor, b[i], i)
    {
      GetMouseBackground(mouseBuffer);
      b := mouseBuffer[..];
      ApartSaves(cursor, u, width, backgroundX, backgroundY, mouseX, mouseY, b);
      CopyBuffer(mouseBuffer, newBackgroundBuffer);
      RenderMouseArrow();
      r := mouseBuffer[..];
    }

    /** A mouse event (lines 344-359): the position moves as far as the screen goes, and the cursor follows it. */
    method MouseMove(dx: int, dy: int, ghost u: Picture)
      requires Shows(u) && !hidden
      modifies `mouseX, `mouseY, `hidden, `backgroundX, `backgroundY, rows, mouseBuffer, backgroundBuffer, newBackgroundBuffer
      ensures Shows(u) && !hidden && backgroundX == mouseX && backgroundY == mouseY
      ensures mouseX == Basics.Max(0, Basics.Min(old(mouseX) + dx, width - 1))
      ensures mouseY == Basics.Max(0, Basics.Min(old(mouseY) + dy, height - 1))
    {
      var x, y := mouseX + dx, mouseY + dy;
      if x >= width {
        x := width - 1;
      }
      if y >= height {
        y := height - 1;
      }
      if x < 0 {
        x := 0;
      }
      if y < 0 {
        y := 0;
      }
      mouseX, mouseY := x, y;
      RedrawMouse(u);
    }

    /** What every drawing operation begins with: the cursor goes if it is in the way (lines 143-150). */
    method TestMouse(r: Rect, ghost u: Picture) returns (mouseHidden: bool)
      requires Shows(u)
      modifies `hidden, rows
      ensures Shows(u) && hidden == (old(hidden) || mouseHidden) && !(old(hidden) && mouseHidden)
      ensures hidden || Apart(r, backgroundX, backgroundY)
    {
      mouseHidden := Meets(r.x1, r.x2, backgroundX, backgroundX + ARROW_WIDTH, r.y1, r.y2, backgroundY, backgroundY + ARROW_HEIGHT) && !hidden;
      if mouseHidden {
        HideMouse(u);
      }
    }

    /** What every drawing operation ends with (line 153). */
    method EndMouse(mouseHidden: bool, ghost u: Picture)
      requires Shows(u) && (mouseHidden ==> hidden)
      modifies `hidden, `backgroundX, `backgroundY, rows, mouseBuffer, backgroundBuffer
      ensures Shows(u) && (hidden <==> old(hidden) && !mouseHidden)
    {
      if mouseHidden {
        ShowMouse(u);
      }
    }

    /** Drawing a bitmap acts on the picture underneath as if there were no cursor (lines 1435-1448). */
    method DrawBitmap(clip: Rect, bmp: array<Row>, w: nat, x: int, y: int, ghost u: Picture)
      requires Shows(u) && BitmapSized(bmp[..], w) && clip.Inside(width, height)
      requires bmp != rows && bmp != mouseBuffer && bmp != backgroundBuffer
      modifies `hidden, `backgroundX, `backgroundY, rows, mouseBuffer, backgroundBuffer
      ensures Shows(Blit(u, bmp[..], x, y, clip)) && hidden == old(hidden)
    {
      ghost var all := bmp[..];
      ghost var u1 := Blit(u, all, x, y, clip);
      if x >= clip.x2 || x + w <= clip.x1 || y >= clip.y2 || y + bmp.Length <= clip.y1 {
        BlitNothing(u, all, w, x, y, clip);
        return;
      }
      var r := Clipped(clip, x, y, w, bmp.Length);
      var mouseHidden := TestMouse(r, u);
      assert bmp[..] == all;
      CopyBitmap(clip, bmp, w, x, y);
      if !hidden {
        BlitBeside(cursor, u, all, w, x, y, clip, backgroundX, backgroundY);
        StillSavedAll(u, u1, r, backgroundX, backgroundY, backgroundBuffer[..]);
      }
      EndMouse(mouseHidden, u1);
      assert bmp[..] == all;
    }

    method FillLines(r: Rect, colour: Pixel)
      requires IsSize(rows[..], width, height) && r.Inside(width, height)
      modifies rows
      ensures rows[..] == Fill(old(rows[..]), r, colour)
    {
      ghost var before := rows[..];
      var y := r.y1;
      while y < r.y2
        invariant r.y1 <= y <= r.y2
        invariant forall k :: 0 <= k < height ==> rows[k] == if r.y1 <= k < y then FillRow(before[k], r.x1, r.x2, colour) else before[k]
      {
        rows[y] := Write(rows[y], r.x1, seq(r.x2 - r.x1, _ => colour));
        assert rows[y] == FillRow(before[y], r.x1, r.x2, colour);
        y := y + 1;
      }
    }

    /** Filling an area (lines 1471-1484): the part inside the clipping rectangle, as if there were no cursor. */
    method FillArea(clip: Rect, left0: int, top0: int, right0: int, bottom0: int, colour: Pixel, ghost u: Picture)
      requires Shows(u) && clip.Inside(width, height)
      modifies `hidden, `backgroundX, `backgroundY, rows, mouseBuffer, backgroundBuffer
      ensures exists r: Rect :: Shows(Fill(u, r, colour)) && hidden == old(hidden)
                && forall x, y :: OnRect(r, x, y) <==> OnRect(clip, x, y) && OnRect(Rect(left0, top0, right0, bottom0), x, y)
    {
      var left, top, right, bottom := left0, top0, right0, bottom0;
      if left >= right || top >= bottom || left >= clip.x2 || right <= clip.x1 || top >= clip.y2 || bottom <= clip.y1 {
        assert Fill(u, Rect(0, 0, 0, 0), colour) == u;
        return;
      }
      if left < clip.x1 {
        left := clip.x1;
      }
      if right > clip.x2 {
        right := clip.x2;
      }
      if top < clip.y1 {
        top := clip.y1;
      }
      if bottom > clip.y2 {
        bottom := clip.y2;
      }
      var r := Rect(left, top, right, bottom);
      assert forall x, y :: OnRect(r, x, y) <==> OnRect(clip, x, y) && OnRect(Rect(left0, top0, right0, bottom0), x, y);
      ghost var u1 := Fill(u, r, colour);
      var mouseHidden := TestMouse(r, u);
      FillLines(r, colour);
      if !hidden {
        FillBeside(cursor, u, r, colour, backgroundX, backgroundY);
        StillSavedAll(u, u1, r, backgroundX, backgroundY, backgroundBuffer[..]);
      }
      EndMouse(mouseHidden, u1);
    }

    /** Scrolling down copies from the bottom up, so that no row is read after it was written (lines 1556-1563). */
    method CopyRowsDown(r: Rect, n: int)
      requires IsSize(rows[..], width, height) && r.Inside(width, height) && 0 < n <= r.y2 - r.y1
      modifies rows
      ensures rows[..] == ScrollDown(old(rows[..]), r, n)
    {
      ghost var before := rows[..];
      ghost var goal := ScrollDown(before, r, n);
      var y := r.y2;
      while y - n > r.y1
        invariant r.y1 + n <= y <= r.y2 && IsSize(rows[..], width, height)
        invariant forall k :: 0 <= k < height ==> rows[k] == if y <= k < r.y2 then goal[k] else before[k]
      {
        y := y - 1;
        rows[y] := Write(rows[y], r.x1, rows[y - n][r.x1..r.x2]);
        assert rows[y] == Splice(before[y], before[y - n], r.x1, r.x2);
      }
    }

    /** Scrolling up copies from the top down (lines 1564-1572). */
    method CopyRowsUp(r: Rect, n: int)
      requires IsSize(rows[..], width, height) && r.Inside(width, height) && 0 < n <= r.y2 - r.y1
      modifies rows
      ensures rows[..] == ScrollDown(old(rows[..]), r, -n)
    {
      ghost var before := rows[..];
      ghost var goal := ScrollDown(before, r, -n);
      var y := r.y1;
      while y < r.y2 - n
        invariant r.y1 <= y <= r.y2 - n && IsSize(rows[..], width, height)
        invariant forall k :: 0 <= k < height ==> rows[k] == if r.y1 <= k < y then goal[k] else before[k]
      {
        rows[y] := Write(rows[y], r.x1, rows[y + n][r.x1..r.x2]);
        assert rows[y] == Splice(before[y], before[y + n], r.x1, r.x2);
        y := y + 1;
      }
    }

    /** Vertical scrolling (lines 1545-1576) moves the picture underneath; the cursor stays where it is. */
    method VScroll(clip: Rect, sc: int, ghost u: Picture) returns (redraw: bool)
      requires Shows(u) && clip.Inside(width, height)
      modifies `hidden, `backgroundX, `backgroundY, rows, mouseBuffer, backgroundBuffer
      ensures Shows(ScrollDown(u, clip, sc)) && hidden == old(hidden) && redraw == (sc != 0)
    {
      ghost var u1 := ScrollDown(u, clip, sc);
      if sc == 0 || sc > clip.y2 - clip.y1 || -sc > clip.y2 - clip.y1 {
        ScrollDownNothing(u, clip, sc);
        return sc != 0;
      }
      var mouseHidden := TestMouse(clip, u);
      if sc > 0 {
        CopyRowsDown(clip, sc);
      } else {
        CopyRowsUp(clip, -sc);
      }
      if !hidden {
        ScrollDownBeside(cursor, u, clip, sc, width, backgroundX, backgroundY);
        StillSavedAll(u, u1, clip, backgroundX, backgroundY, backgroundBuffer[..]);
      }
      EndMouse(mouseHidden, u1);
      return true;
    }

    method ShiftLine(y: nat, x1: nat, x2: nat, n: int)
      requires y < rows.Length && x1 <= x2 <= |rows[y]| && -(x2 - x1) <= n <= x2 - x1
      modifies rows
      ensures rows[..] == old(rows[..])[y := ShiftRow(old(rows[y]), x1, x2, n)]
    {
      ShiftIsWrite(rows[y], x1, x2, n);
      if n > 0 {
        rows[y] := Write(rows[y], x1 + n, rows[y][x1..x2 - n]);
      } else {
        rows[y] := Write(rows[y], x1, rows[y][x1 - n..x2]);
      }
    }

    /** The lines of horizontal scrolling, each moved as a whole (lines 1521-1538). */
    method ShiftLines(r: Rect, n: int)
      requires IsSize(rows[..], width, height) && r.Inside(width, height) && -(r.x2 - r.x1) <= n <= r.x2 - r.x1
      modifies rows
      ensures rows[..] == ScrollRight(old(rows[..]), r, n)
    {
      ghost var before := rows[..];
      var y := r.y1;
      while y < r.y2
        invariant r.y1 <= y <= r.y2 && IsSize(rows[..], width, height)
        invariant forall k :: 0 <= k < height ==> rows[k] == if r.y1 <= k < y then ShiftRow(before[k], r.x1, r.x2, n) else before[k]
      {
        ShiftLine(y, r.x1, r.x2, n);
        y := y + 1;
      }
    }

    /** Horizontal scrolling (lines 1513-1542). */
    method HScroll(clip: Rect, sc: int, ghost u: Picture) returns (redraw: bool)
      requires Shows(u) && clip.Inside(width, height)
      modifies `hidden, `backgroundX, `backgroundY, rows, mouseBuffer, backgroundBuffer
      ensures Shows(ScrollRight(u, clip, sc)) && hidden == old(hidden) && redraw == (sc != 0)
    {
      ghost var u1 := ScrollRight(u, clip, sc);
      if sc == 0 || sc > clip.x2 - clip.x1 || -sc > clip.x2 - clip.x1 {
        ScrollRightNothing(u, clip, sc);
        return sc != 0;
      }
      var mouseHidden := TestMouse(clip, u);
      ShiftLines(clip, sc);
      if !hidden {
        ScrollRightBeside(cursor, u, clip, sc, width, backgroundX, backgroundY);
        StillSavedAll(u, u1, clip, backgroundX, backgroundY, backgroundBuffer[..]);
      }
      EndMouse(mouseHidden, u1);
      return true;
    }
  }

  /** Nothing of the bitmap is inside the clipping rectangle. */
  lemma BlitNothing(u: Picture, bmp: Picture, w: nat, x: int, y: int, clip: Rect)
    requires BitmapSized(bmp, w)
    requires x >= clip.x2 || x + w <= clip.x1 || y >= clip.y2 || y + |bmp| <= clip.y1
    ensures Blit(u, bmp, x, y, clip) == u
  {
    forall k | 0 <= k < |u| && clip.y1 <= k < clip.y2 && 0 <= k - y < |bmp|
      ensures BlitRow(u[k], bmp[k - y], x, clip.x1, clip.x2) == u[k]
    {
    }
  }

  /** The part of a line between the edges of the rectangle is the part between the visible columns. */
  lemma BlitRowClipped(row: Row, bits: Row, x0: int, x1: int, x2: int, x: int, xs: int)
    requires x == Basics.Max(x1, x0) && x + xs == Basics.Min(x2, x0 + |bits|)
    ensures BlitRow(row, bits, x0, x1, x2) == BlitRow(row, bits, x0, x, x + xs)
  {
  }

  /** Copying the visible lines draws the bitmap. */
  lemma {:induction false} BlitLines(u: Picture, bmp: Picture, width: nat, w: nat, x0: int, y0: int, clip: Rect, x: int, y: int, xs: int, ys: int)
    requires BitmapSized(bmp, w) && Clipped(clip, x0, y0, w, |bmp|) == Rect(x, y, x + xs, y + ys)
    requires clip.Inside(width, |u|) && 0 <= ys
    ensures 0 <= x - x0 && 0 <= y - y0 && 0 <= x && 0 <= y && y + ys <= |u| && y + ys <= y0 + |bmp|
    ensures BlitFrom(u, bmp, x0, y0, x, x + xs, y, y + ys) == Blit(u, bmp, x0, y0, clip)
  {
    forall k | 0 <= k < |u|
      ensures BlitFrom(u, bmp, x0, y0, x, x + xs, y, y + ys)[k] == Blit(u, bmp, x0, y0, clip)[k]
    {
      BlitFromAt(u, bmp, x0, y0, x, x + xs, y, y + ys, k);
      if y <= k < y + ys {
        BlitRowClipped(u[k], bmp[k - y0], x0, clip.x1, clip.x2, x, xs);
      }
      assert [BlitFrom(u, bmp, x0, y0, x, x + xs, y, y + ys)[k]] == [Blit(u, bmp, x0, y0, clip)[k]];
      Basics.Unwrap(BlitFrom(u, bmp, x0, y0, x, x + xs, y, y + ys)[k], Blit(u, bmp, x0, y0, clip)[k]);
    }
  }

  lemma BlitUncovers(c: Cursor, u: Picture, width: nat, height: nat, b: seq<Row>, x: nat, y: nat)
    requires c.Sized() && IsSize(u, width, height) && x < width && BufferSaves(b, u, x, y)
    ensures Blit(WithCursor(c, u, x, y), b, x, y, Rect(0, 0, width, height)) == u
  {
    var w := WithCursor(c, u, x, y);
    forall k | 0 <= k < height
      ensures Blit(w, b, x, y, Rect(0, 0, width, height))[k] == u[k]
    {
      if 0 <= k - y < ARROW_HEIGHT {
        var i := k - y;
        assert y + i == k;
        BlitRowVisible(w[k], b[i], x);
        Uncover(c, u[k], x, i, b[i]);
      } else {
        OutsideCover(c, u[k], x, k - y);
      }
    }
  }

  lemma BlitCoversRow(c: Cursor, u: Picture, width: nat, b: seq<Row>, r: seq<Row>, x: nat, y: nat, i: nat)
    requires c.Sized() && IsSize(u, width, |u|) && x < width && BufferSaves(b, u, x, y) && BufferSized(r)
    requires i < ARROW_HEIGHT && y + i < |u| && r[i] == Rendered(c, b[i], i)
    ensures BlitRow(u[y + i], r[i], x, 0, width) == Cover(c, u[y + i], x, i)
  {
    BlitRowVisible(u[y + i], r[i], x);
    CoverUp(c, u[y + i], x, i, b[i]);
  }

  lemma BlitCovers(c: Cursor, u: Picture, width: nat, height: nat, b: seq<Row>, r: seq<Row>, x: nat, y: nat)
    requires c.Sized() && IsSize(u, width, height) && x < width && BufferSaves(b, u, x, y) && BufferSized(r)
    requires forall i :: 0 <= i < ARROW_HEIGHT ==> r[i] == Rendered(c, b[i], i)
    ensures Blit(u, r, x, y, Rect(0, 0, width, height)) == WithCursor(c, u, x, y)
  {
    forall k | 0 <= k < height
      ensures Blit(u, r, x, y, Rect(0, 0, width, height))[k] == WithCursor(c, u, x, y)[k]
    {
      if 0 <= k - y < ARROW_HEIGHT {
        BlitCoversRow(c, u, width, b, r, x, y, k - y);
      } else {
        OutsideCover(c, u[k], x, k - y);
      }
    }
  }

  /** A cursor elsewhere is not in the background taken from the screen. */
  lemma ApartSaves(c: Cursor, u: Picture, width: nat, x0: nat, y0: nat, x1: nat, y1: nat, b: seq<Row>)
    requires c.Sized() && IsSize(u, width, |u|) && BufferSaves(b, WithCursor(c, u, x0, y0), x1, y1)
    requires x1 - x0 >= ARROW_WIDTH || x0 - x1 >= ARROW_WIDTH || y1 - y0 >= ARROW_HEIGHT || y0 - y1 >= ARROW_HEIGHT
    ensures BufferSaves(b, u, x1, y1)
  {
    forall i | 0 <= i < ARROW_HEIGHT && y1 + i < |u|
      ensures Saves(b[i], u[y1 + i], x1)
    {
      var row := u[y1 + i];
      var i0 := y1 + i - y0;
      assert WithCursor(c, u, x0, y0)[y1 + i] == Cover(c, row, x0, i0);
      assert Saves(b[i], Cover(c, row, x0, i0), x1);
      var n := Visible(x1, |row|);
      assert Cover(c, row, x0, i0)[x1..x1 + n] == row[x1..x1 + n];
    }
  }

  /** What was saved stays right while drawing goes on elsewhere. */
  lemma StillSavedAll(u: Picture, u1: Picture, r: Rect, x: nat, y: nat, b: seq<Row>)
    requires ChangedWithin(u, u1, r) && Apart(r, x, y) && BufferSaves(b, u, x, y)
    ensures BufferSaves(b, u1, x, y)
  {
    forall i | 0 <= i < ARROW_HEIGHT && y + i < |u1|
      ensures Saves(b[i], u1[y + i], x)
    {
      StillSaved(u, u1, r, x, y, b[i], i);
    }
  }

  /** Mending the new background takes the old cursor out of it. */
  lemma MendedSaves(c: Cursor, u: Picture, width: nat, x0: nat, y0: nat, saved: seq<Row>, x1: nat, y1: nat, got: seq<Row>, mended: seq<Row>)
    requires c.Sized() && IsSize(u, width, |u|) && x0 < width && x1 < width
    requires BufferSaves(saved, u, x0, y0) && BufferSaves(got, WithCursor(c, u, x0, y0), x1, y1)
    requires -ARROW_WIDTH < x0 - x1 < ARROW_WIDTH && -ARROW_HEIGHT < y0 - y1 < ARROW_HEIGHT
    requires mended == MendedRows(got, saved, x0 - x1, y0 - y1)
    ensures BufferSaves(mended, u, x1, y1)
  {
    forall i | 0 <= i < ARROW_HEIGHT && y1 + i < |u|
      ensures Saves(mended[i], u[y1 + i], x1)
    {
      var i0 := i - (y0 - y1);
      assert WithCursor(c, u, x0, y0)[y1 + i] == Cover(c, u[y1 + i], x0, i0);
      if 0 <= i0 < ARROW_HEIGHT {
        assert y0 + i0 == y1 + i;
        Repair(c, u[y1 + i], x0, i0, saved[i0], x1, got[i]);
      } else {
        OutsideCover(c, u[y1 + i], x0, i0);
      }
    }
  }
}
