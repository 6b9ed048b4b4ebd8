// What is on the screen, pixel by pixel: the dots of the cursor, and what drawing and scrolling leave.

module ScreenPixels {
  import opened Canvas
  import Framebuffer

  /** The cursor at (x, y) shows its black dots in black and its white ones in white; all else is the picture. */
  lemma CursorPixel(c: Cursor, u: Picture, x: int, y: int, k: int, j: int)
    requires c.Sized() && 0 <= k < |u| && 0 <= j < |u[k]|
    ensures var q := WithCursor(c, u, x, y);
            && |q| == |u| && |q[k]| == |u[k]|
            && if 0 <= k - y < ARROW_HEIGHT && 0 <= j - x < ARROW_WIDTH then
                 && (c.dots[k - y][j - x] == Black ==> q[k][j] == c.black)
                 && (c.dots[k - y][j - x] == White ==> q[k][j] == c.white)
                 && (c.dots[k - y][j - x] == Clear ==> q[k][j] == u[k][j])
               else q[k][j] == u[k][j]
  {
    assert WithCursor(c, u, x, y)[k] == Cover(c, u[k], x, k - y);
  }

  /** The same on the screen, whose cursor is wherever it was last drawn. */
  lemma ShownPixel(s: Framebuffer.Screen, u: Picture, k: int, j: int)
    requires s.Shows(u) && !s.hidden && 0 <= k < s.height && 0 <= j < s.width
    ensures var i, l := k - s.backgroundY, j - s.backgroundX;
            if 0 <= i < ARROW_HEIGHT && 0 <= l < ARROW_WIDTH then
              && (s.cursor.dots[i][l] == Black ==> s.rows[k][j] == s.cursor.black)
              && (s.cursor.dots[i][l] == White ==> s.rows[k][j] == s.cursor.white)
              && (s.cursor.dots[i][l] == Clear ==> s.rows[k][j] == u[k][j])
            else s.rows[k][j] == u[k][j]
  {
    CursorPixel(s.cursor, u, s.backgroundX, s.backgroundY, k, j);
    assert s.rows[..][k] == s.rows[k];
  }

  /** A bitmap at (x, y) has its pixels where rectangle and bitmap are. */
  lemma BlitPixel(u: Picture, bmp: Picture, w: nat, x: int, y: int, clip: Rect, k: int, j: int)
    requires BitmapSized(bmp, w) && 0 <= k < |u| && 0 <= j < |u[k]|
    ensures var q := Blit(u, bmp, x, y, clip);
            && |q[k]| == |u[k]|
            && q[k][j] == if clip.x1 <= j < clip.x2 && clip.y1 <= k < clip.y2 && 0 <= j - x < w && 0 <= k - y < |bmp|
                          then bmp[k - y][j - x] else u[k][j]
  {
  }

  lemma FillPixel(u: Picture, r: Rect, colour: Pixel, k: int, j: int)
    requires 0 <= k < |u| && 0 <= j < |u[k]|
    ensures var q := Fill(u, r, colour);
            && |q[k]| == |u[k]|
            && q[k][j] == if r.x1 <= j < r.x2 && r.y1 <= k < r.y2 then colour else u[k][j]
  {
  }

  /** Scrolling brings to each pixel of the rectangle the one n rows above, if that is in the rectangle. */
  lemma ScrollDownPixel(u: Picture, r: Rect, n: int, width: nat, k: int, j: int)
    requires IsSize(u, width, |u|) && r.Inside(width, |u|) && 0 <= k < |u| && 0 <= j < width
    ensures var q := ScrollDown(u, r, n);
            && |q[k]| == width
            && q[k][j] == if r.x1 <= j < r.x2 && r.y1 <= k < r.y2 && r.y1 <= k - n < r.y2 then u[k - n][j] else u[k][j]
  {
  }

  /** And sideways the one n columns to the left. */
  lemma ScrollRightPixel(u: Picture, r: Rect, n: int, width: nat, k: int, j: int)
    requires IsSize(u, width, |u|) && r.Inside(width, |u|) && 0 <= k < |u| && 0 <= j < width
    ensures var q := ScrollRight(u, r, n);
            && |q[k]| == width
            && q[k][j] == if r.x1 <= j < r.x2 && r.y1 <= k < r.y2 && r.x1 <= j - n < r.x2 then u[k][j - n] else u[k][j]
  {
    var row := ScrollRight(u, r, n)[k];
    assert row == if r.y1 <= k < r.y2 then ShiftRow(u[k], r.x1, r.x2, n) else u[k];
  }
}
