// The picture buffer of the GIF decoder, drawn in place (gif.c, output_pixel).

module GifRaster {
  import opened GifScreen

  class Raster {
    const width: nat
    const height: nat
    const palette: seq<Rgb>
    /** The rows of the picture; a row is copied as a whole. */
    const rows: array<seq<Rgb>>
    var xoff: nat
    var yoff: nat
    /** The row the source's actual_line points at. */
    var line: nat
    var interlDist: nat
    /** The source's end_callback_hit: no more data is wanted. */
    var endHit: bool

    constructor (width: nat, height: nat, palette: seq<Rgb>, interlaced: bool)
      requires width > 0 && height > 0
      ensures Fresh(View()) && fresh(rows)
      ensures this.width == width && this.height == height && this.palette == palette
      ensures interlDist == if interlaced then 24 else 1
    {
      this.width, this.height, this.palette := width, height, palette;
      rows := new seq<Rgb>[height](_ => seq(width, _ => 0));
      xoff, yoff, line, endHit := 0, 0, 0, false;
      interlDist := if interlaced then 24 else 1;
    }

    function View(): Screen
      reads this, rows
    {
      Screen(width, height, palette, rows[..], xoff, yoff, line, interlDist, endHit)
    }

    /** Copies the finished row over those it stands in for (lines 164-170). */
    method CopyDown(n: nat)
      requires rows.Length == height && line == yoff < height
      modifies rows
      ensures rows[..] == Smear(old(rows[..]), line, yoff + 1, yoff + n)
    {
      var y := yoff + 1;
      while y < height && y < yoff + n
        invariant yoff + 1 <= y
        invariant forall k :: 0 <= k < height ==> rows[k] == old(rows[if yoff + 1 <= k < y && k < yoff + n then line else k])
      {
        rows[y] := rows[line];
        y := y + 1;
      }
    }

    /** Goes on to the next pass that has a row left, or ends the picture (lines 174-188). */
    method SettlePasses()
      requires !endHit && interlDist > 0
      modifies this
      ensures View() == Settle(old(View()))
    {
      ghost var t := View();
      while yoff >= height
        invariant !endHit && Settle(View()) == Settle(t) && interlDist > 0
        decreases interlDist
      {
        if interlDist <= 2 {
          endHit := true;
          return;
        }
        interlDist := if interlDist == 24 then 8 else interlDist / 2;
        yoff := interlDist / 2;
        line := yoff;
      }
    }

    /** The current row is full (lines 145-188). */
    method EndRow()
      requires Sized(View()) && !endHit && line == yoff < height
      modifies this, rows
      ensures View() == RowDone(old(View()))
    {
      ghost var full := View();
      xoff := 0;
      if interlDist == 1 {
        line, yoff := line + 1, yoff + 1;
      } else {
        var skip := if interlDist == 24 then 8 else interlDist;
        var n := if interlDist == 24 then 8 else interlDist / 2;
        CopyDown(n);
        line, yoff := line + skip, yoff + skip;
      }
      assert RowDone(full) == Settle(View());
      SettlePasses();
    }

    /** One decoded pixel, with everything that finishing a row or a pass entails (lines 128-190). */
    method OutputPixel(c: nat)
      requires Ready(View())
      modifies this, rows
      ensures View() == Put(old(View()), c)
    {
      if c >= |palette| {
        endHit := true;
        return;
      }
      ghost var s := View();
      rows[line] := rows[line][xoff := palette[c]];
      xoff := xoff + 1;
      assert View() == s.(rows := s.rows[s.line := s.rows[s.line][s.xoff := s.palette[c]]], xoff := s.xoff + 1);
      if xoff >= width {
        EndRow();
      }
    }
  }
}
