// How the code stream reaches the decoder (gif.c, state 6 of gif_accept_byte): in sub-blocks of up to
// 255 bytes, each behind its length, the last one empty. And what a stream makes of a picture.

module GifBlocks {
  import opened GifScreen
  import opened GifLzw

  /** The bytes taken out of the sub-blocks, how much of the last one is still to come, and whether the end was reached. */
  datatype Blocks = Blocks(payload: seq<nat>, remains: nat, terminated: bool)

  function Unblock(data: seq<nat>, remains: nat): (b: Blocks)
    ensures |b.payload| <= |data|
    decreases |data|
  {
    if data == [] then Blocks([], remains, false)
    else if remains > 0 then
      var b := Unblock(data[1..], remains - 1);
      b.(payload := [data[0]] + b.payload)
    else if data[0] == 0 then Blocks([], 0, true)
    else Unblock(data[1..], data[0])
  }

  /** A payload cut into sub-blocks, with the empty one at the end. */
  function InBlocks(parts: seq<seq<nat>>): seq<nat> {
    if parts == [] then [0] else [|parts[0]|] + parts[0] + InBlocks(parts[1..])
  }

  function Joined(parts: seq<seq<nat>>): seq<nat> {
    if parts == [] then [] else parts[0] + Joined(parts[1..])
  }

  lemma {:induction false} UnblockRest(part: seq<nat>, more: seq<nat>)
    ensures Unblock(part + more, |part|).payload == part + Unblock(more, 0).payload
    ensures Unblock(part + more, |part|).remains == Unblock(more, 0).remains
    ensures Unblock(part + more, |part|).terminated == Unblock(more, 0).terminated
  {
    if part == [] {
      assert part + more == more;
    } else {
      UnblockRest(part[1..], more);
      assert (part + more)[1..] == part[1..] + more;
    }
  }

  /** Whatever the cut into non-empty sub-blocks, and whatever follows the empty one, the payload comes back. */
  lemma {:induction false} UnblockInBlocks(parts: seq<seq<nat>>, after: seq<nat>)
    requires forall i :: 0 <= i < |parts| ==> parts[i] != []
    ensures Unblock(InBlocks(parts) + after, 0) == Blocks(Joined(parts), 0, true)
  {
    if parts != [] {
      var tail := InBlocks(parts[1..]) + after;
      UnblockInBlocks(parts[1..], after);
      assert InBlocks(parts) + after == [|parts[0]|] + (parts[0] + tail);
      assert ([|parts[0]|] + (parts[0] + tail))[1..] == parts[0] + tail;
      UnblockRest(parts[0], tail);
    }
  }

  function AllBits(bytes: seq<nat>): (bits: seq<bool>)
    ensures |bits| == 8 * |bytes|
  {
    if bytes == [] then [] else Bits(bytes[0], 8) + AllBits(bytes[1..])
  }

  // ----- What a stream makes of a picture -----

  /** The codes were valid at least until the picture was complete. */
  ghost predicate Determined(before: Screen, d: Decoded)
    requires before.ended || Ready(before)
  {
    d.st.status != Invalid || Feed(before, d.out).ended
  }

  function Closed(s: Screen, now: bool): Screen {
    if now then s.(ended := true) else s
  }

  /** The picture after decoding d: it received all indices, and has ended if the stream did. */
  function Outcome(before: Screen, d: Decoded): Screen
    requires before.ended || Ready(before)
  {
    Closed(Feed(before, d.out), d.st.status in {Ended, Full})
  }

  /** A picture that has ended takes no more pixels. */
  lemma {:induction false} EndedStays(before: Screen, out: seq<nat>, later: seq<nat>)
    requires (before.ended || Ready(before)) && Feed(before, out).ended
    ensures Feed(before, out + later) == Feed(before, out)
  {
    FeedConcat(before, out, later);
  }

  /** Decoding d first and then the bits `later` is decoding `goal`, after `sofar`. */
  ghost predicate Leads(goal: Decoded, sofar: seq<nat>, d: Decoded, later: seq<bool>) {
    d.st.Sound() && goal == Run(d.st, d.rest + later).After(d.out).After(sofar)
  }

  /** Once the picture has ended, what is still to be decoded does not matter. */
  lemma {:induction false} EarlyEnd(before: Screen, goal: Decoded, sofar: seq<nat>, d: Decoded, later: seq<bool>)
    requires (before.ended || Ready(before)) && Leads(goal, sofar, d, later)
    requires Determined(Feed(before, sofar), d) && Outcome(Feed(before, sofar), d).ended
    ensures Determined(before, goal)
    ensures Outcome(before, goal) == Outcome(Feed(before, sofar), d)
  {
    var run := Run(d.st, d.rest + later);
    AfterAfter(sofar, d.out, run);
    FeedConcat(before, sofar, d.out);
    if Feed(before, sofar + d.out).ended {
      EndedStays(before, sofar + d.out, run.out);
    } else {
      assert run == Decoded(d.st, d.rest + later, []);
      assert sofar + d.out + [] == sofar + d.out;
    }
  }

  /** An invalid code before the end of the picture leaves the whole stream invalid. */
  lemma {:induction false} EarlyInvalid(before: Screen, goal: Decoded, sofar: seq<nat>, d: Decoded, later: seq<bool>)
    requires (before.ended || Ready(before)) && Leads(goal, sofar, d, later)
    requires !Determined(Feed(before, sofar), d)
    ensures !Determined(before, goal)
  {
    AfterAfter(sofar, d.out, Run(d.st, d.rest + later));
    FeedConcat(before, sofar, d.out);
    assert sofar + d.out + [] == sofar + d.out;
  }
}
