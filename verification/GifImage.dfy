// The image data of a GIF file as it comes in (gif.c, state 6 of gif_accept_byte and
// gif_restart_internal): bytes in sub-blocks, cut into codes, decoded, drawn.

module GifImage {
  import Basics
  import opened GifScreen
  import GifRaster
  import opened GifLzw
  import opened GifBlocks
  import GifDecoder

  class ImageData {
    const decoder: GifDecoder.Decoder
    /** How many bytes of the current sub-block are still to come. */
    var remains: nat

    /** The code size byte (lines 483-500). Only 2 to 8 are acceptable. */
    constructor (raster: GifRaster.Raster, initialCodeSize: nat)
      requires 2 <= initialCodeSize <= 8 && (raster.endHit || Ready(raster.View()))
      ensures decoder.raster == raster && fresh(decoder)
      ensures fresh(decoder.pointer) && fresh(decoder.endChar) && fresh(decoder.garbage)
      ensures decoder.Safe() && decoder.At(Cleared(initialCodeSize), []) && remains == 0
    {
      decoder := new GifDecoder.Decoder(raster, initialCodeSize);
      remains := 0;
    }

    /** One byte of the image data (lines 502-518). */
    method AcceptImageByte(c: nat, ghost st: Lzw, ghost rest: seq<bool>)
      requires decoder.Safe() && !decoder.raster.endHit && c < 256
      modifies this, decoder, decoder.pointer, decoder.endChar, decoder.garbage, decoder.raster, decoder.raster.rows
      ensures decoder.Safe()
      ensures old(decoder.bitsRead < decoder.codeSize) ==> decoder.raster.endHit || decoder.bitsRead < decoder.codeSize
      ensures old(remains) == 0 ==>
                && decoder.raster.View() == Closed(old(decoder.raster.View()), c == 0) && remains == c
                && (old(decoder.At(st, rest)) ==> decoder.At(st, rest))
      ensures old(remains) > 0 ==>
                && (decoder.raster.endHit || remains == old(remains) - 1)
                && (old(decoder.At(st, rest)) ==> decoder.Progressed(Run(st, rest + Bits(c, 8)), old(decoder.raster.View())))
    {
      if remains == 0 {
        remains := c;
        if c == 0 {
          decoder.raster.endHit := true;
        }
      } else {
        decoder.AcceptByte(c, st, rest);
        if decoder.raster.endHit {
          return;
        }
        remains := remains - 1;
      }
    }

    /** What image data makes of a picture: the indices decoded from the sub-blocks, and the end of both. */
    ghost predicate Shown(goal: Decoded, b: Blocks, before: Screen)
      requires before.ended || Ready(before)
      reads this, decoder, decoder.pointer, decoder.endChar, decoder.raster, decoder.raster.rows
    {
      Determined(before, goal) ==>
        && decoder.raster.View() == Closed(Outcome(before, goal), b.terminated)
        && (decoder.raster.endHit || (decoder.At(goal.st, goal.rest) && remains == b.remains))
    }

    /** Between two bytes: the goal and the blocks are what is still to come makes of them. */
    ghost predicate Midway(goal: Decoded, b: Blocks, cur: Lzw, rest: seq<bool>, sofar: seq<nat>, before: Screen, left: seq<nat>)
      requires before.ended || Ready(before)
      reads this, decoder, decoder.pointer, decoder.endChar, decoder.raster, decoder.raster.rows
    {
      && decoder.At(cur, rest) && |rest| < cur.width && decoder.raster.View() == Feed(before, sofar)
      && goal == Run(cur, rest + AllBits(Unblock(left, remains).payload)).After(sofar)
      && b.terminated == Unblock(left, remains).terminated && b.remains == Unblock(left, remains).remains
    }

    /** One byte further. */
    method Advance(ghost goal: Decoded, ghost b: Blocks, ghost cur: Lzw, ghost rest: seq<bool>, ghost sofar: seq<nat>,
                   ghost before: Screen, ghost left: seq<nat>, c: nat)
      returns (ghost cur': Lzw, ghost rest': seq<bool>, ghost sofar': seq<nat>)
      requires decoder.Safe() && !decoder.raster.endHit && (before.ended || Ready(before))
      requires left != [] && c == left[0] < 256
      modifies this, decoder, decoder.pointer, decoder.endChar, decoder.garbage, decoder.raster, decoder.raster.rows
      ensures decoder.Safe()
      ensures old(decoder.bitsRead < decoder.codeSize) ==> decoder.raster.endHit || decoder.bitsRead < decoder.codeSize
      ensures old(Midway(goal, b, cur, rest, sofar, before, left)) ==>
                if !Determined(before, goal) then true
                else if decoder.raster.endHit then Shown(goal, b, before)
                else Midway(goal, b, cur', rest', sofar', before, left[1..])
    {
      ghost var valid, inBlock := Midway(goal, b, cur, rest, sofar, before, left), remains > 0;
      AcceptImageByte(c, cur, rest);
      cur', rest', sofar' := cur, rest, sofar;
      if valid {
        if inBlock {
          ghost var later := AllBits(Unblock(left[1..], old(remains) - 1).payload);
          ghost var d := Run(cur, rest + Bits(c, 8));
          cur', rest', sofar' := d.st, d.rest, sofar + d.out;
          ByteRead(goal, cur, rest, sofar, before, c, later);
          if !Determined(Feed(before, sofar), d) {
            EarlyInvalid(before, goal, sofar, d, later);
          } else if decoder.raster.endHit {
            EarlyEnd(before, goal, sofar, d, later);
          }
        } else if c == 0 {
          assert rest + [] == rest;
          assert sofar + [] == sofar;
        }
      }
    }

    /** A piece of the image data (lines 561-572). */
    method RestartInternal(data: seq<nat>, ghost st: Lzw, ghost rest: seq<bool>)
      requires decoder.Safe() && !decoder.raster.endHit && decoder.bitsRead < decoder.codeSize
      requires forall i :: 0 <= i < |data| ==> data[i] < 256
      modifies this, decoder, decoder.pointer, decoder.endChar, decoder.garbage, decoder.raster, decoder.raster.rows
      ensures decoder.Safe() && (decoder.raster.endHit || decoder.bitsRead < decoder.codeSize)
      ensures old(decoder.At(st, rest)) ==>
                Shown(Run(st, rest + AllBits(Unblock(data, old(remains)).payload)), Unblock(data, old(remains)),
                      old(decoder.raster.View()))
    {
      ghost var before, valid, b := decoder.raster.View(), decoder.At(st, rest), Unblock(data, remains);
      ghost var goal := if valid then Run(st, rest + AllBits(b.payload)) else Decoded(st, rest, []);
      if valid {
        MidwayBegins(goal, b, st, rest, data);
      }
      ReadAll(data, goal, b, st, rest, before);
    }

    method ReadAll(data: seq<nat>, ghost goal: Decoded, ghost b: Blocks, ghost st: Lzw, ghost rest: seq<bool>, ghost before: Screen)
      requires decoder.Safe() && !decoder.raster.endHit && decoder.bitsRead < decoder.codeSize
      requires (before.ended || Ready(before)) && forall i :: 0 <= i < |data| ==> data[i] < 256
      modifies this, decoder, decoder.pointer, decoder.endChar, decoder.garbage, decoder.raster, decoder.raster.rows
      ensures decoder.Safe() && (decoder.raster.endHit || decoder.bitsRead < decoder.codeSize)
      ensures old(Midway(goal, b, st, rest, [], before, data)) ==> Shown(goal, b, before)
    {
      ghost var counts := Midway(goal, b, st, rest, [], before, data) && Determined(before, goal);
      ghost var cur, more, sofar := st, rest, [];
      assert data[0..] == data;
      var i := 0;
      while i < |data|
        invariant 0 <= i <= |data|
        invariant decoder.Safe() && !decoder.raster.endHit && decoder.bitsRead < decoder.codeSize
        invariant counts ==> Midway(goal, b, cur, more, sofar, before, data[i..])
      {
        cur, more, sofar := Advance(goal, b, cur, more, sofar, before, data[i..], data[i]);
        if decoder.raster.endHit {
          return;
        }
        assert data[i..][1..] == data[i + 1..];
        i := i + 1;
      }
      if counts {
        MidwayDone(goal, b, cur, more, sofar, before, data[i..]);
      }
    }

    lemma {:induction false} MidwayBegins(goal: Decoded, b: Blocks, st: Lzw, rest: seq<bool>, data: seq<nat>)
      requires decoder.Safe() && !decoder.raster.endHit && decoder.bitsRead < decoder.codeSize && decoder.At(st, rest)
      requires b == Unblock(data, remains) && goal == Run(st, rest + AllBits(b.payload))
      ensures Midway(goal, b, st, rest, [], decoder.raster.View(), data)
    {
      AfterNothing(goal);
    }

    /** When all has come in, the goal is where decoding stands. */
    lemma MidwayDone(goal: Decoded, b: Blocks, cur: Lzw, rest: seq<bool>, sofar: seq<nat>, before: Screen, left: seq<nat>)
      requires (before.ended || Ready(before)) && left == [] && !decoder.raster.endHit
      requires Midway(goal, b, cur, rest, sofar, before, left)
      ensures Shown(goal, b, before)
    {
      assert rest + [] == rest && sofar + [] == sofar;
      assert goal == Decoded(cur, rest, sofar);
    }
  }

  /** A picture that receives at least as many indices as it has pixels is complete; the rest is ignored. */
  lemma {:induction false} EnoughPixels(s: Screen, out: seq<nat>, y: nat)
    requires Fresh(s) && y < s.height && |out| >= s.width * s.height && InPalette(s.palette, out)
    ensures Feed(s, out).ended && HoldsRun(s.interlDist != 1, Feed(s, out), y, Colours(s.palette, out))
    ensures Feed(s, out).height == s.height && Feed(s, out).width == s.width
  {
    var n := s.width * s.height;
    assert out == out[..n] + out[n..];
    CompletePicture(s, out[..n], y);
    EndedStays(s, out[..n], out[n..]);
    assert Colours(s.palette, out)[..n] == Colours(s.palette, out[..n]);
  }

  /** The whole way: from any cut into sub-blocks, a stream with enough valid codes gives the complete picture. */
  lemma {:induction false} WholeImage(s: Screen, root: nat, parts: seq<seq<nat>>, after: seq<nat>, b: Blocks, d: Decoded, y: nat)
    requires Fresh(s) && 2 <= root <= 8 && y < s.height
    requires forall i :: 0 <= i < |parts| ==> parts[i] != []
    requires Cleared(root).Sound()
    requires b == Unblock(InBlocks(parts) + after, 0) && d == Run(Cleared(root), [] + AllBits(b.payload))
    requires |d.out| >= s.width * s.height && InPalette(s.palette, d.out)
    ensures b.payload == Joined(parts) && b.terminated
    ensures Determined(s, d) && Closed(Outcome(s, d), b.terminated).ended
    ensures HoldsRun(s.interlDist != 1, Closed(Outcome(s, d), b.terminated), y, Colours(s.palette, d.out))
  {
    UnblockInBlocks(parts, after);
    EnoughPixels(s, d.out, y);
  }

  /** A byte of payload: decoding goes on from where its bits lead. */
  lemma {:induction false} ByteRead(goal: Decoded, cur: Lzw, rest: seq<bool>, sofar: seq<nat>, before: Screen, c: nat, later: seq<bool>)
    requires cur.Sound() && (before.ended || Ready(before))
    requires goal == Run(cur, rest + (Bits(c, 8) + later)).After(sofar)
    ensures var d := Run(cur, rest + Bits(c, 8));
            && Leads(goal, sofar, d, later)
            && goal == Run(d.st, d.rest + later).After(sofar + d.out)
            && Feed(before, sofar + d.out) == Feed(Feed(before, sofar), d.out)
  {
    BitsRead(cur, rest, Bits(c, 8), later, sofar);
    FeedConcat(before, sofar, Run(cur, rest + Bits(c, 8)).out);
  }

  lemma {:induction false} BitsRead(cur: Lzw, rest: seq<bool>, bits: seq<bool>, later: seq<bool>, sofar: seq<nat>)
    requires cur.Sound()
    ensures var d := Run(cur, rest + bits);
            Run(cur, rest + (bits + later)).After(sofar) == Run(d.st, d.rest + later).After(sofar + d.out)
                                                        == Run(d.st, d.rest + later).After(d.out).After(sofar)
  {
    var d := Run(cur, rest + bits);
    Basics.Regroup(rest, bits, later);
    RunConcat(cur, rest + bits, later);
    AfterAfter(sofar, d.out, Run(d.st, d.rest + later));
  }
}
