// What a chunked body becomes when it is delivered in pieces. A blank size line takes its size from the
// bytes behind it: those that came with it, and then whatever memory holds behind the read buffer.

module ChunkedDelivery {
  import opened Basics
  import opened Chunked
  import opened ChunkedBody
  import ChunkSize

  /** What memory holds behind the read buffer when so many bytes in it follow the size line. */
  type Memory = map<nat, seq<Byte>>

  function Behind(mem: Memory, n: nat): seq<Byte> {
    if n in mem then mem[n] else []
  }

  /** One byte, with the bytes `ahead` behind it in memory. */
  function NextIn(b: Body, c: Byte, ahead: seq<Byte>, max: nat): Body {
    var u := Next(b, c, max);
    if b.verdict == Reading && u.verdict == Unsaid then SizeRead(u.(verdict := Reading), ChunkSize.Strtol(ahead)) else u
  }

  /** A piece of the body. */
  function RunIn(b: Body, s: seq<Byte>, mem: Memory, max: nat): Body
    decreases |s|
  {
    if s == [] then b else RunIn(NextIn(b, s[0], s[1..] + Behind(mem, |s| - 1), max), s[1..], mem, max)
  }

  /** Piece after piece. */
  function Deliver(b: Body, pieces: seq<seq<Byte>>, mems: seq<Memory>, max: nat): Body
    requires |pieces| == |mems|
    decreases |pieces|
  {
    if pieces == [] then b else Deliver(RunIn(b, pieces[0], mems[0], max), pieces[1..], mems[1..], max)
  }

  function Concat(pieces: seq<seq<Byte>>): seq<Byte> {
    if pieces == [] then [] else pieces[0] + Concat(pieces[1..])
  }

  /** As long as no blank size line is reached, what is ahead does not count. */
  lemma {:induction false} RunInConcat(b: Body, s: seq<Byte>, t: seq<Byte>, mem: Memory, max: nat)
    requires b.verdict == Unsaid || Run(b, s, max).verdict != Unsaid
    ensures RunIn(b, s + t, mem, max) == RunIn(Run(b, s, max), t, mem, max)
    decreases |s|
  {
    if s == [] {
      assert s + t == t;
    } else {
      assert (s + t)[1..] == s[1..] + t;
      var u := Next(b, s[0], max);
      if u.verdict == Unsaid {
        RunOver(u, s[1..], max);
      }
      RunInConcat(u, s[1..], t, mem, max);
    }
  }

  lemma {:induction false} RunInSame(b: Body, s: seq<Byte>, mem: Memory, max: nat)
    requires Run(b, s, max).verdict != Unsaid
    ensures RunIn(b, s, mem, max) == Run(b, s, max)
  {
    assert s + [] == s;
    RunInConcat(b, s, [], mem, max);
  }

  lemma {:induction false} RunInOver(b: Body, s: seq<Byte>, mem: Memory, max: nat)
    requires b.verdict != Reading
    ensures RunIn(b, s, mem, max) == b
    decreases |s|
  {
    if s != [] {
      RunInOver(b, s[1..], mem, max);
    }
  }

  lemma {:induction false} DeliverOver(b: Body, pieces: seq<seq<Byte>>, mems: seq<Memory>, max: nat)
    requires b.verdict != Reading && |pieces| == |mems|
    ensures Deliver(b, pieces, mems, max) == b
    decreases |pieces|
  {
    if pieces != [] {
      RunInOver(b, pieces[0], mems[0], max);
      DeliverOver(b, pieces[1..], mems[1..], max);
    }
  }

  /** Without a blank size line the delivery does not matter. */
  lemma {:induction false} DeliveredAsRead(b: Body, pieces: seq<seq<Byte>>, mems: seq<Memory>, max: nat)
    requires |pieces| == |mems| && Run(b, Concat(pieces), max).verdict != Unsaid
    ensures Deliver(b, pieces, mems, max) == Run(b, Concat(pieces), max)
    decreases |pieces|
  {
    if pieces != [] {
      var u := Run(b, pieces[0], max);
      RunConcat(b, pieces[0], Concat(pieces[1..]), max);
      if u.verdict == Unsaid {
        RunOver(u, Concat(pieces[1..]), max);
      }
      RunInSame(b, pieces[0], mems[0], max);
      DeliveredAsRead(u, pieces[1..], mems[1..], max);
    }
  }

  /** Where the blank size line ends. */
  lemma {:induction false} BlankLineAt(b: Body, s: seq<Byte>, max: nat) returns (k: nat)
    requires b.verdict == Reading && Run(b, s, max).verdict == Unsaid
    ensures k < |s| && Run(b, s[..k], max).verdict == Reading && Run(b, s[..k + 1], max) == Run(b, s, max)
    decreases |s|
  {
    var n := |s| - 1;
    assert s == s[..n] + [s[n]];
    RunSnoc(b, s[..n], s[n], max);
    if Run(b, s[..n], max).verdict == Reading {
      k := n;
      assert s[..n + 1] == s;
    } else {
      k := BlankLineAt(b, s[..n], max);
      assert s[..n][..k] == s[..k] && s[..n][..k + 1] == s[..k + 1];
    }
  }

  lemma {:induction false} RunInSnoc(b: Body, s: seq<Byte>, c: Byte, mem: Memory, max: nat)
    requires Run(b, s, max).verdict != Unsaid
    ensures RunIn(b, s + [c], mem, max) == NextIn(Run(b, s, max), c, Behind(mem, 0), max)
  {
    RunInConcat(b, s, [c], mem, max);
    var u := Run(b, s, max);
    assert [c][1..] == [] && [] + Behind(mem, 0) == Behind(mem, 0);
    assert RunIn(u, [c], mem, max) == RunIn(NextIn(u, c, Behind(mem, 0), max), [], mem, max);
  }

  /** A number in hexadecimal. */
  function Hex(n: nat): (d: seq<Byte>)
    ensures ChunkSize.Spells(d, n)
  {
    var last: Byte := ChunkSize.LOWER[n % 16] as int;
    if n < 16 then [last]
    else
      var d := Hex(n / 16) + [last];
      assert d[..|d| - 1] == Hex(n / 16);
      d
  }

  ghost predicate Delivery(pieces: seq<seq<Byte>>, mems: seq<Memory>, s: seq<Byte>) {
    |pieces| == |mems| && Concat(pieces) == s
  }

  /** The same bytes are stored, up to the same offset, with the same verdict. */
  predicate SameResult(x: Body, y: Body) {
    x.verdict == y.verdict && x.from == y.from && x.stored == y.stored
  }

  /**
   * Behind a blank size line the bytes in memory decide. The stream is delivered in the same two pieces
   * each time; with nothing behind the first the body is in error, with a number there it goes on.
   */
  lemma {:induction false} BlankLineDecides(b: Body, s: seq<Byte>, max: nat)
    returns (pieces: seq<seq<Byte>>, nothing: seq<Memory>, number: seq<Memory>)
    requires b.verdict == Reading && b.from <= max && Run(b, s, max).verdict == Unsaid
    ensures Delivery(pieces, nothing, s) && Delivery(pieces, number, s)
    ensures Deliver(b, pieces, nothing, max).verdict == HttpError
    ensures !SameResult(Deliver(b, pieces, number, max), Deliver(b, pieces, nothing, max))
    ensures |s| < MAX_INT ==> Deliver(b, pieces, number, max).verdict != HttpError
  {
    var k := BlankLineAt(b, s, max);
    var line, post, largest := s[..k + 1], s[k + 1..], Hex(MAX_INT - 1);
    pieces, nothing, number := [line, post], [map[], map[]], [map[0 := largest], map[]];
    assert s == line + post;
    TwoPieces(b, line, post, map[], max);
    TwoPieces(b, line, post, map[0 := largest], max);
    BlankLineRead(b, s, k, map[], max);
    BlankLineRead(b, s, k, map[0 := largest], max);
    RunInOver(RunIn(b, line, map[], max), post, map[], max);
    StrtolDigits(largest, MAX_INT - 1);
    ReadOn(RunIn(b, line, map[0 := largest], max), post, max);
  }

  lemma {:induction false} BlankLineRead(b: Body, s: seq<Byte>, k: nat, mem: Memory, max: nat)
    requires b.verdict == Reading && b.from <= max && k < |s|
    requires Run(b, s[..k], max).verdict == Reading && Run(b, s[..k + 1], max).verdict == Unsaid
    ensures var u := RunIn(b, s[..k + 1], mem, max);
            && u.from <= max && u.stored == Run(b, s[..k], max).stored
            && u == SizeRead(u.(phase := Line(false, [], false), verdict := Reading), ChunkSize.Strtol(Behind(mem, 0)))
  {
    assert s[..k + 1] == s[..k] + [s[k]];
    RunSnoc(b, s[..k], s[k], max);
    RunInSnoc(b, s[..k], s[k], mem, max);
    FromInRange(b, s[..k], max);
  }

  lemma {:induction false} TwoPieces(b: Body, s: seq<Byte>, t: seq<Byte>, mem: Memory, max: nat)
    ensures Deliver(b, [s, t], [mem, map[]], max) == RunIn(RunIn(b, s, mem, max), t, map[], max)
    ensures Concat([s, t]) == s + t
  {
    var none: Memory := map[];
    assert [s, t][1..] == [t] && [t][1..] == [] && [mem, none][1..] == [none] && [none][1..] == [];
    assert Concat([t]) == t + [] == t;
    var u := RunIn(b, s, mem, max);
    assert Deliver(u, [t], [none], max) == Deliver(RunIn(u, t, none, max), [], [], max);
  }

  lemma {:induction false} FromInRange(b: Body, s: seq<Byte>, max: nat)
    requires b.from <= max
    ensures Run(b, s, max).from <= max && |b.stored| <= |Run(b, s, max).stored|
    decreases |s|
  {
    if s != [] {
      FromInRange(Next(b, s[0], max), s[1..], max);
    }
  }

  /** After the largest size, reading on changes what is stored or ends with a file too large. */
  lemma {:induction false} ReadOn(u: Body, post: seq<Byte>, max: nat)
    requires u.verdict == Reading && u.phase == Data(MAX_INT - 1) && u.from <= max
    ensures var r := RunIn(u, post, map[], max); r.verdict != HttpError || r.stored != u.stored
    ensures |post| < MAX_INT ==> RunIn(u, post, map[], max).verdict != HttpError
  {
    if post != [] {
      var v := Next(u, post[0], max);
      assert RunIn(u, post, map[], max) == RunIn(v, post[1..], map[], max);
      if v.verdict == Reading {
        StoredGrows(v, post[1..], map[], max);
      } else {
        RunInOver(v, post[1..], map[], max);
      }
      if |post| < MAX_INT {
        if u.from + |post| <= max {
          RunData(u, post, max);
        } else {
          RunTooLarge(u, post, max);
        }
        RunInSame(u, post, map[], max);
      }
    }
  }

  lemma {:induction false} StoredGrows(b: Body, s: seq<Byte>, mem: Memory, max: nat)
    ensures |b.stored| <= |RunIn(b, s, mem, max).stored|
    decreases |s|
  {
    if s != [] {
      StoredGrows(NextIn(b, s[0], s[1..] + Behind(mem, |s| - 1), max), s[1..], mem, max);
    }
  }

  /** The stream alone tells what becomes of it. */
  ghost predicate Determined(b: Body, s: seq<Byte>, max: nat) {
    forall pieces, mems :: Delivery(pieces, mems, s) ==> Deliver(b, pieces, mems, max) == Run(b, s, max)
  }

  /** All deliveries of a stream have the same result. */
  ghost predicate AllAlike(b: Body, s: seq<Byte>, max: nat) {
    forall p, t, q, u :: Delivery(p, t, s) && Delivery(q, u, s) ==> SameResult(Deliver(b, p, t, max), Deliver(b, q, u, max))
  }

  /** The delivery does not matter if, and only if, the stream reaches no blank size line. */
  lemma {:induction false} DeliveryMatters(from: nat, s: seq<Byte>, max: nat)
    requires from <= max
    ensures AllAlike(Start(from), s, max) <==> Run(Start(from), s, max).verdict != Unsaid
    ensures Run(Start(from), s, max).verdict != Unsaid ==> Determined(Start(from), s, max)
  {
    var b := Start(from);
    if Run(b, s, max).verdict == Unsaid {
      var pieces, nothing, number := BlankLineDecides(b, s, max);
      assert !AllAlike(b, s, max);
    } else {
      forall pieces, mems | Delivery(pieces, mems, s)
        ensures Deliver(b, pieces, mems, max) == Run(b, s, max)
      {
        DeliveredAsRead(b, pieces, mems, max);
      }
    }
  }

  /** A well-formed body stores its chunks' data and finishes, however it is delivered. */
  lemma {:induction false} BodyDelivered(from: nat, chunks: seq<Chunk>, zeros: seq<Byte>, ext: seq<Byte>, trailer: seq<seq<Byte>>,
                                         after: seq<Byte>, pieces: seq<seq<Byte>>, mems: seq<Memory>, max: nat)
    requires forall i :: 0 <= i < |chunks| ==> chunks[i].Sound() && chunks[i].data != []
    requires SizeLine(zeros, 0, ext)
    requires forall i :: 0 <= i < |trailer| ==> trailer[i] != [] && Plain(trailer[i])
    requires from + |ChunksData(chunks)| <= max
    requires Delivery(pieces, mems, ChunksText(chunks) + (zeros + ext + CRLF) + TrailerText(trailer) + after)
    ensures Deliver(Start(from), pieces, mems, max)
         == Body(Line(true, [], false), from + |ChunksData(chunks)|, ChunksData(chunks), Finished)
  {
    ReadBody(from, chunks, zeros, ext, trailer, after, max);
    DeliveredAsRead(Start(from), pieces, mems, max);
  }
}
